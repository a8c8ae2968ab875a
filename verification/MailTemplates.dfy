/** A customised mail of a community and its files: upload, draft delete, save and reset
    (database/mailTemplateDao.go, api/mailTemplateController.go, mailtemplate/render.go). */
module MailTemplates {
  import opened Wrappers
  import opened EnergyTypes

  datatype Kind = Image | Attachment

  /** A row of base.mail_template_file; its id is the key. Size is the length of the content. */
  datatype File = File(kind: Kind, size: nat, createdAt: int, committed: bool)

  type Files = map<string, File>

  /** What an editor saves: the text, the images it refers to, and the PDF. */
  datatype Edit = Edit(content: string, images: seq<string>, attachment: Option<string>)

  /** The saved version; `stamp` is when it was saved. */
  datatype Template = Template(version: nat, stamp: nat, edit: Edit)

  datatype Limits = Limits(maxImages: int, maxAttachments: int, maxTotal: int)

  /** One mail of one community; `clock` counts the saves accepted so far. */
  datatype Mail = Mail(template: Option<Template>, files: Files, clock: nat)

  const DRAFT_AGE: int := DEADLINE

  // ----- what a version may use

  /** Each image once, in order. */
  function Firsts(images: seq<string>): (r: seq<string>)
    ensures forall id :: id in r <==> id in images
  {
    if images == [] then []
    else
      var init, last := images[..|images| - 1], images[|images| - 1];
      assert images == init + [last];
      if last in init then Firsts(init) else Firsts(init) + [last]
  }

  function Total(files: Files, ids: seq<string>): int {
    if ids == [] then 0
    else Total(files, ids[..|ids| - 1]) + if ids[|ids| - 1] in files then files[ids[|ids| - 1]].size else 0
  }

  predicate IsFile(files: Files, id: string, kind: Kind) {
    id in files && files[id].kind == kind
  }

  predicate HasImages(files: Files, images: seq<string>) {
    forall id <- images :: IsFile(files, id, Image)
  }

  /** All files of a version together. */
  function SizeOf(files: Files, e: Edit): int {
    Total(files, Firsts(e.images)) + if e.attachment.Some? then Total(files, [e.attachment.value]) else 0
  }

  /** The version's files exist, are of their kind and within the limits. */
  predicate Acceptable(files: Files, e: Edit, limits: Limits) {
    && HasImages(files, e.images) && |Firsts(e.images)| <= limits.maxImages
    && (e.attachment.Some? ==> limits.maxAttachments != 0 && IsFile(files, e.attachment.value, Attachment))
    && SizeOf(files, e) <= limits.maxTotal
  }

  datatype Refusal = MissingImage | TooManyImages | NoAttachments | TooManyAttachments | MissingAttachment | TooLarge

  lemma FirstsStep(images: seq<string>, i: nat)
    requires i < |images|
    ensures Firsts(images[..i + 1]) == if images[i] in images[..i] then Firsts(images[..i]) else Firsts(images[..i]) + [images[i]]
  {
    assert images[..i + 1][..i] == images[..i];
  }

  lemma {:induction false} FirstsDistinct(images: seq<string>)
    ensures forall i, j :: 0 <= i < j < |Firsts(images)| ==> Firsts(images)[i] != Firsts(images)[j]
  {
    if images != [] {
      FirstsDistinct(images[..|images| - 1]);
      var init := Firsts(images[..|images| - 1]);
      assert forall i :: 0 <= i < |init| ==> init[i] in images[..|images| - 1];
    }
  }

  lemma TotalSnoc(files: Files, ids: seq<string>, id: string)
    ensures Total(files, ids + [id]) == Total(files, ids) + if id in files then files[id].size else 0
  {
    assert (ids + [id])[..|ids|] == ids;
  }

  /** The images of a text: each must be there; their number and their size. */
  method CountImages(files: Files, images: seq<string>) returns (missing: bool, count: nat, total: int)
    ensures missing <==> !HasImages(files, images)
    ensures !missing ==> count == |Firsts(images)| && total == Total(files, Firsts(images))
  {
    var seen: set<string> := {};
    count, total := 0, 0;
    for i := 0 to |images|
      invariant HasImages(files, images[..i]) && forall id :: id in seen <==> id in images[..i]
      invariant count == |Firsts(images[..i])| && total == Total(files, Firsts(images[..i]))
    {
      var id := images[i];
      assert images[..i + 1] == images[..i] + [id] && id in images;
      if id !in files || files[id].kind != Image {
        return true, count, total;
      }
      FirstsStep(images, i);
      TotalSnoc(files, Firsts(images[..i]), id);
      if id !in seen {
        seen, count, total := seen + {id}, count + 1, total + files[id].size;
      }
    }
    assert images[..|images|] == images;
    missing := false;
  }

  lemma TotalOne(files: Files, id: string)
    ensures Total(files, [id]) == if id in files then files[id].size else 0
  {
    TotalSnoc(files, [], id);
    assert [] + [id] == [id];
  }

  /** A reason to refuse the version. */
  predicate Explains(files: Files, e: Edit, limits: Limits, why: Refusal) {
    match why
    case MissingImage => !HasImages(files, e.images)
    case TooManyImages => |Firsts(e.images)| > limits.maxImages
    case NoAttachments => e.attachment.Some? && limits.maxAttachments == 0
    case TooManyAttachments => false
    case MissingAttachment => e.attachment.Some? && !IsFile(files, e.attachment.value, Attachment)
    case TooLarge => SizeOf(files, e) > limits.maxTotal
  }

  /** checkVersionFiles: the first reason to refuse the version. */
  method CheckVersionFiles(files: Files, e: Edit, limits: Limits) returns (r: Option<Refusal>)
    ensures r.None? <==> Acceptable(files, e, limits)
    ensures r.Some? ==> Explains(files, e, limits, r.value)
  {
    var missing, count, total := CountImages(files, e.images);
    if missing {
      return Some(MissingImage);
    }
    if count > limits.maxImages {
      return Some(TooManyImages);
    }
    if e.attachment.Some? && limits.maxAttachments == 0 {
      return Some(NoAttachments);
    }
    if e.attachment.Some? {
      var id := e.attachment.value;
      TotalOne(files, id);
      if id !in files || files[id].kind != Attachment {
        return Some(MissingAttachment);
      }
      total := total + files[id].size;
    }
    r := if total > limits.maxTotal then Some(TooLarge) else None;
  }

  // ----- drafts

  function Drafts(files: Files): set<string> {
    set id | id in files && !files[id].committed
  }

  function DraftsOf(files: Files, kind: Kind): set<string> {
    set id | id in files && !files[id].committed && files[id].kind == kind
  }

  ghost function SizeOfIds(files: Files, ids: set<string>): nat
    requires ids <= files.Keys
  {
    if ids == {} then 0
    else
      var id :| id in ids;
      files[id].size + SizeOfIds(files, ids - {id})
  }

  lemma {:induction false} SizeWithout(files: Files, ids: set<string>, id: string)
    requires ids <= files.Keys && id in ids
    ensures SizeOfIds(files, ids) == files[id].size + SizeOfIds(files, ids - {id})
    decreases ids
  {
    var first :| first in ids && SizeOfIds(files, ids) == files[first].size + SizeOfIds(files, ids - {first});
    if first != id {
      SizeWithout(files, ids - {first}, id);
      SizeWithout(files, ids - {id}, first);
      assert ids - {first} - {id} == ids - {id} - {first};
    }
  }

  /** Fewer files of the same size are not larger together. */
  lemma {:induction false} SizeOfFewer(x: Files, y: Files, a: set<string>, b: set<string>)
    requires a <= x.Keys && b <= y.Keys && a <= b && forall id <- a :: x[id].size == y[id].size
    ensures SizeOfIds(x, a) <= SizeOfIds(y, b)
    decreases a
  {
    if a != {} {
      var id :| id in a;
      SizeWithout(x, a, id);
      SizeWithout(y, b, id);
      SizeOfFewer(x, y, a - {id}, b - {id});
    }
  }

  function MostOf(kind: Kind, limits: Limits): int {
    match kind case Image => limits.maxImages case Attachment => limits.maxAttachments
  }

  /** The drafts a mail has leave room for one more file. */
  ghost predicate UploadFits(files: Files, kind: Kind, size: nat, limits: Limits) {
    |DraftsOf(files, kind)| < MostOf(kind, limits) && SizeOfIds(files, Drafts(files)) + size <= limits.maxTotal
  }

  ghost predicate DraftsWithin(files: Files, limits: Limits) {
    && |DraftsOf(files, Image)| <= limits.maxImages && |DraftsOf(files, Attachment)| <= limits.maxAttachments
    && SizeOfIds(files, Drafts(files)) <= limits.maxTotal
  }

  lemma FewerDraftsWithin(x: Files, y: Files, limits: Limits)
    requires DraftsWithin(y, limits)
    requires forall id <- Drafts(x) :: id in Drafts(y) && x[id] == y[id]
    ensures DraftsWithin(x, limits)
  {
    FewerOfKind(x, y, Image);
    FewerOfKind(x, y, Attachment);
    SizeOfFewer(x, y, Drafts(x), Drafts(y));
  }

  lemma FewerOfKind(x: Files, y: Files, kind: Kind)
    requires forall id <- Drafts(x) :: id in Drafts(y) && x[id] == y[id]
    ensures |DraftsOf(x, kind)| <= |DraftsOf(y, kind)|
  {
    forall id | id in DraftsOf(x, kind)
      ensures id in DraftsOf(y, kind)
    {
      assert id in Drafts(x);
    }
    SubsetSize(DraftsOf(x, kind), DraftsOf(y, kind));
  }

  lemma {:induction false} SubsetSize(a: set<string>, b: set<string>)
    requires a <= b
    ensures |a| <= |b|
  {
    if a != {} {
      var x :| x in a;
      SubsetSize(a - {x}, b - {x});
    }
  }

  lemma UploadWithin(files: Files, id: string, f: File, limits: Limits)
    requires DraftsWithin(files, limits) && UploadFits(files, f.kind, f.size, limits) && id !in files && !f.committed
    ensures DraftsWithin(files[id := f], limits)
  {
    UploadCounts(files, id, f, Image);
    UploadCounts(files, id, f, Attachment);
    UploadSize(files, id, f);
  }

  lemma UploadCounts(files: Files, id: string, f: File, kind: Kind)
    requires id !in files && !f.committed
    ensures |DraftsOf(files[id := f], kind)| == |DraftsOf(files, kind)| + if f.kind == kind then 1 else 0
  {
    assert DraftsOf(files[id := f], kind) == DraftsOf(files, kind) + if f.kind == kind then {id} else {};
  }

  lemma UploadSize(files: Files, id: string, f: File)
    requires id !in files && !f.committed
    ensures SizeOfIds(files[id := f], Drafts(files[id := f])) == SizeOfIds(files, Drafts(files)) + f.size
  {
    var more := files[id := f];
    assert Drafts(more) - {id} == Drafts(files);
    SizeWithout(more, Drafts(more), id);
    SizeOfFewer(more, files, Drafts(files), Drafts(files));
    SizeOfFewer(files, more, Drafts(files), Drafts(files));
  }

  /** listMailTemplateFiles without the stale ones: the committed files, and the drafts of the last 24 hours. */
  function Listed(files: Files, now: int): Files {
    map id | id in files && (files[id].committed || files[id].createdAt > now - DRAFT_AGE) :: files[id]
  }

  /** Later, or of fewer files, no more drafts are listed. */
  lemma ListedLater(x: Files, y: Files, s: int, t: int, limits: Limits)
    requires DraftsWithin(Listed(y, s), limits) && s <= t
    requires forall id <- Drafts(x) :: id in Drafts(y) && x[id] == y[id]
    ensures DraftsWithin(Listed(x, t), limits)
  {
    forall id | id in Drafts(Listed(x, t))
      ensures id in Drafts(Listed(y, s)) && Listed(x, t)[id] == Listed(y, s)[id]
    {
      assert id in Drafts(x) && id in Drafts(y);
    }
    FewerDraftsWithin(Listed(x, t), Listed(y, s), limits);
  }

  /** The check of an upload against the files it is given, in any order. */
  method CheckUpload(files: Files, kind: Kind, size: nat, limits: Limits) returns (r: Option<Refusal>)
    ensures r.None? <==> UploadFits(files, kind, size, limits)
    ensures r == Some(TooManyImages) ==> kind == Image && |DraftsOf(files, Image)| >= limits.maxImages
    ensures r == Some(TooManyAttachments) ==> kind == Attachment && |DraftsOf(files, Attachment)| >= limits.maxAttachments
    ensures r == Some(TooLarge) ==> SizeOfIds(files, Drafts(files)) + size > limits.maxTotal
    ensures r.Some? ==> r.value in {TooManyImages, TooManyAttachments, TooLarge}
  {
    var images, attachments, total := CountDrafts(files);
    if kind == Image && images >= limits.maxImages {
      return Some(TooManyImages);
    }
    if kind == Attachment && attachments >= limits.maxAttachments {
      return Some(TooManyAttachments);
    }
    r := if size + total > limits.maxTotal then Some(TooLarge) else None;
  }

  /** The drafts among the files seen, by kind, and their size. */
  ghost predicate Counted(files: Files, seen: set<string>, images: int, attachments: int, total: int) {
    && images == |Among(DraftsOf(files, Image), seen)| && attachments == |Among(DraftsOf(files, Attachment), seen)|
    && total == SizeOfIds(files, Among(Drafts(files), seen))
  }

  lemma CountedStep(files: Files, seen: set<string>, images: int, attachments: int, total: int, id: string)
    requires Counted(files, seen, images, attachments, total) && id in files && id !in seen
    ensures var f := files[id];
            if f.committed then Counted(files, seen + {id}, images, attachments, total)
            else if f.kind == Image then Counted(files, seen + {id}, images + 1, attachments, total + f.size)
            else Counted(files, seen + {id}, images, attachments + 1, total + f.size)
  {
    AmongStep(DraftsOf(files, Image), seen, id);
    AmongStep(DraftsOf(files, Attachment), seen, id);
    SizeStep(files, seen, id);
  }

  lemma CountedAll(files: Files, images: int, attachments: int, total: int)
    requires Counted(files, files.Keys, images, attachments, total)
    ensures images == |DraftsOf(files, Image)| && attachments == |DraftsOf(files, Attachment)|
    ensures total == SizeOfIds(files, Drafts(files))
  {
    AmongAll(Drafts(files), files.Keys);
    AmongAll(DraftsOf(files, Image), files.Keys);
    AmongAll(DraftsOf(files, Attachment), files.Keys);
  }

  /** The drafts by kind, and their size. */
  method CountDrafts(files: Files) returns (images: int, attachments: int, total: int)
    ensures images == |DraftsOf(files, Image)| && attachments == |DraftsOf(files, Attachment)|
    ensures total == SizeOfIds(files, Drafts(files))
  {
    images, attachments, total := 0, 0, 0;
    var todo := files.Keys;
    while todo != {}
      invariant todo <= files.Keys && Counted(files, files.Keys - todo, images, attachments, total)
    {
      var id :| id in todo;
      CountedStep(files, files.Keys - todo, images, attachments, total, id);
      assert files.Keys - todo + {id} == files.Keys - (todo - {id});
      todo := todo - {id};
      if files[id].committed {
        continue;
      }
      total := total + files[id].size;
      if files[id].kind == Image {
        images := images + 1;
      } else {
        attachments := attachments + 1;
      }
    }
    assert files.Keys - {} == files.Keys;
    CountedAll(files, images, attachments, total);
  }

  function Among(ids: set<string>, seen: set<string>): (r: set<string>)
    ensures r <= ids
  {
    ids * seen
  }

  lemma AmongAll(ids: set<string>, seen: set<string>)
    requires ids <= seen
    ensures Among(ids, seen) == ids
  {
  }

  lemma AmongStep(ids: set<string>, seen: set<string>, id: string)
    requires id !in seen
    ensures |Among(ids, seen + {id})| == |Among(ids, seen)| + if id in ids then 1 else 0
  {
    assert Among(ids, seen + {id}) == Among(ids, seen) + if id in ids then {id} else {};
  }

  lemma SizeStep(files: Files, seen: set<string>, id: string)
    requires id in files && id !in seen
    ensures SizeOfIds(files, Among(Drafts(files), seen + {id})) ==
            SizeOfIds(files, Among(Drafts(files), seen)) + if files[id].committed then 0 else files[id].size
  {
    var all := Among(Drafts(files), seen + {id});
    if files[id].committed {
      assert all == Among(Drafts(files), seen);
    } else {
      SizeWithout(files, all, id);
      assert all - {id} == Among(Drafts(files), seen);
    }
  }

  // ----- the limits, said of the files

  function SetOf(ids: seq<string>): (r: set<string>)
    ensures forall id :: id in r <==> id in ids
  {
    set id <- ids :: id
  }

  lemma SetSnoc(ids: seq<string>, id: string)
    requires id !in ids
    ensures SetOf(ids + [id]) - {id} == SetOf(ids) && id in SetOf(ids + [id])
  {
  }

  lemma {:induction false} DistinctTotal(files: Files, ids: seq<string>)
    requires (forall id <- ids :: id in files) && forall i, j :: 0 <= i < j < |ids| ==> ids[i] != ids[j]
    ensures SetOf(ids) <= files.Keys && |SetOf(ids)| == |ids| && Total(files, ids) == SizeOfIds(files, SetOf(ids))
  {
    if ids == [] {
      assert SetOf(ids) == {};
    } else {
      var init, last := ids[..|ids| - 1], ids[|ids| - 1];
      DistinctTotal(files, init);
      assert ids == init + [last];
      SetSnoc(init, last);
      SizeWithout(files, SetOf(ids), last);
      assert |SetOf(ids) - {last}| == |SetOf(ids)| - 1;
    }
  }

  /** Every image the text refers to is a stored image, the PDF a stored PDF, and there is one only if one is allowed; the
      images count once each, and all files together stay within the size. */
  ghost predicate IsWithin(files: Files, e: Edit, limits: Limits) {
    && (forall id <- e.images :: id in files && files[id].kind == Image) && |SetOf(e.images)| <= limits.maxImages
    && (e.attachment.Some? ==>
          limits.maxAttachments != 0 && e.attachment.value in files && files[e.attachment.value].kind == Attachment)
    && SizeOfIds(files, SetOf(e.images)) + (if e.attachment.Some? then files[e.attachment.value].size else 0) <= limits.maxTotal
  }

  lemma AcceptableIsWithin(files: Files, e: Edit, limits: Limits)
    ensures Acceptable(files, e, limits) <==> IsWithin(files, e, limits)
  {
    if forall id <- e.images :: IsFile(files, id, Image) {
      FirstsDistinct(e.images);
      DistinctTotal(files, Firsts(e.images));
      assert SetOf(e.images) == SetOf(Firsts(e.images));
    }
    if e.attachment.Some? {
      TotalOne(files, e.attachment.value);
    }
  }

  /** The drafts of the last 24 hours. */
  function FreshDrafts(files: Files, now: int): set<string> {
    set id | id in files && !files[id].committed && now - files[id].createdAt < 24 * 3_600_000
  }

  /** They leave room for one file more of the kind and of the size. */
  ghost predicate HasRoom(files: Files, kind: Kind, size: nat, now: int, limits: Limits) {
    var recent := FreshDrafts(files, now);
    && |set id <- recent | files[id].kind == kind| < (if kind.Image? then limits.maxImages else limits.maxAttachments)
    && SizeOfIds(files, recent) + size <= limits.maxTotal
  }

  lemma ListedHasRoom(files: Files, kind: Kind, size: nat, now: int, limits: Limits)
    ensures UploadFits(Listed(files, now), kind, size, limits) <==> HasRoom(files, kind, size, now, limits)
  {
    var listed, recent := Listed(files, now), FreshDrafts(files, now);
    assert Drafts(listed) == recent;
    assert DraftsOf(listed, kind) == set id <- recent | files[id].kind == kind;
    SizeOfFewer(listed, files, recent, recent);
    SizeOfFewer(files, listed, recent, recent);
  }

  // ----- the steps

  predicate Uses(e: Edit, id: string) {
    id in e.images || e.attachment == Some(id)
  }

  function Version(m: Mail): nat {
    if m.template.Some? then m.template.value.version else 0
  }

  /** The files after a save: those it uses are committed, the others of the old version and old drafts are gone. */
  function SavedFiles(files: Files, e: Edit, now: int): Files {
    map id | id in files && (Uses(e, id) || (!files[id].committed && files[id].createdAt >= now - DRAFT_AGE)) ::
      if Uses(e, id) then files[id].(committed := true) else files[id]
  }

  /** After a save the files it uses are committed; of the others the drafts of the last 24 hours stay, nothing else. */
  predicate AreSaved(before: Files, after: Files, e: Edit, now: int) {
    && (forall id <- after :: id in before && after[id] == before[id].(committed := id in e.images || e.attachment == Some(id)))
    && (forall id <- before :: id in after <==>
          || id in e.images || e.attachment == Some(id)
          || (!before[id].committed && now - before[id].createdAt <= 24 * 3_600_000))
  }

  datatype Op =
    | Upload(id: string, kind: Kind, size: nat, at: int)
    | DeleteDraft(id: string)
    | Save(edit: Edit, expected: nat, now: int)
    | Reset

  predicate Accepts(m: Mail, e: Edit, expected: nat, limits: Limits) {
    Version(m) == expected && Acceptable(m.files, e, limits)
  }

  /** What an accepted or refused request leaves. */
  ghost function Next(m: Mail, op: Op, limits: Limits): Mail {
    match op
    case Upload(id, kind, size, at) =>
      if id in m.files || !UploadFits(Listed(m.files, at), kind, size, limits) then m
      else m.(files := m.files[id := File(kind, size, at, false)])
    case DeleteDraft(id) => if id in m.files && !m.files[id].committed then m.(files := m.files - {id}) else m
    case Save(e, expected, now) =>
      if !Accepts(m, e, expected, limits) then m
      else Mail(Some(Template(expected + 1, m.clock + 1, e)), SavedFiles(m.files, e, now), m.clock + 1)
    case Reset => Mail(None, map[], m.clock)
  }

  // ----- the invariant

  /** The committed files are exactly those the saved version uses, and they are there, of their kind and within the
      limits. */
  predicate Inv(m: Mail, limits: Limits) {
    && (forall id <- m.files :: m.files[id].committed <==> m.template.Some? && Uses(m.template.value.edit, id))
    && (m.template.Some? ==>
          && Acceptable(m.files, m.template.value.edit, limits)
          && 0 < m.template.value.version && m.template.value.stamp <= m.clock)
  }

  lemma {:induction false} TotalSame(x: Files, y: Files, ids: seq<string>)
    requires forall id <- ids :: id in x && id in y && x[id].size == y[id].size
    ensures Total(x, ids) == Total(y, ids)
  {
    if ids != [] {
      assert ids[|ids| - 1] in ids;
      TotalSame(x, y, ids[..|ids| - 1]);
    }
  }

  /** Files of the version that keep kind and size keep it acceptable. */
  lemma AcceptableSame(x: Files, y: Files, e: Edit, limits: Limits)
    requires Acceptable(x, e, limits)
    requires forall id :: Uses(e, id) ==> id in y && y[id].kind == x[id].kind && y[id].size == x[id].size
    ensures Acceptable(y, e, limits)
  {
    TotalSame(x, y, Firsts(e.images));
    if e.attachment.Some? {
      TotalSame(x, y, [e.attachment.value]);
    }
  }

  lemma UsedExist(files: Files, e: Edit, limits: Limits)
    requires Acceptable(files, e, limits)
    ensures forall id :: Uses(e, id) ==> id in files
  {
  }

  lemma NextKeeps(m: Mail, op: Op, limits: Limits)
    requires Inv(m, limits)
    ensures Inv(Next(m, op, limits), limits)
  {
    var n := Next(m, op, limits);
    if m.template.Some? {
      UsedExist(m.files, m.template.value.edit, limits);
    }
    match op
    case Upload(_, _, _, _) =>
      if m.template.Some? {
        AcceptableSame(m.files, n.files, m.template.value.edit, limits);
      }
    case DeleteDraft(_) =>
      if m.template.Some? {
        AcceptableSame(m.files, n.files, m.template.value.edit, limits);
      }
    case Save(e, expected, now) =>
      if Accepts(m, e, expected, limits) {
        UsedExist(m.files, e, limits);
        AcceptableSame(m.files, n.files, e, limits);
      }
    case Reset =>
  }

  // ----- any order of requests

  ghost function Run(m: Mail, ops: seq<Op>, limits: Limits): Mail {
    if ops == [] then m else Next(Run(m, ops[..|ops| - 1], limits), ops[|ops| - 1], limits)
  }

  lemma {:induction false} CommittedAreUsed(m: Mail, ops: seq<Op>, limits: Limits)
    requires Inv(m, limits)
    ensures Inv(Run(m, ops, limits), limits)
  {
    if ops != [] {
      CommittedAreUsed(m, ops[..|ops| - 1], limits);
      NextKeeps(Run(m, ops[..|ops| - 1], limits), ops[|ops| - 1], limits);
    }
  }

  // ----- the drafts

  /** The time of the last upload, `t` when there is none. */
  function LastUpload(ops: seq<Op>, t: int): int {
    if ops == [] then t
    else if ops[|ops| - 1].Upload? then ops[|ops| - 1].at
    else LastUpload(ops[..|ops| - 1], t)
  }

  /** Uploads come at `t` or later, in the order of their times. */
  predicate UploadsInOrder(ops: seq<Op>, t: int) {
    ops == [] ||
    var init, op := ops[..|ops| - 1], ops[|ops| - 1];
    UploadsInOrder(init, t) && (op.Upload? ==> LastUpload(init, t) <= op.at)
  }

  lemma NextListedWithin(m: Mail, op: Op, t: int, limits: Limits)
    requires DraftsWithin(Listed(m.files, t), limits) && (op.Upload? ==> t <= op.at)
    ensures DraftsWithin(Listed(Next(m, op, limits).files, if op.Upload? then op.at else t), limits)
  {
    var n := Next(m, op, limits);
    if op.Upload? && n != m {
      ListedLater(m.files, m.files, t, op.at, limits);
      UploadWithin(Listed(m.files, op.at), op.id, File(op.kind, op.size, op.at, false), limits);
      assert Listed(n.files, op.at) == Listed(m.files, op.at)[op.id := File(op.kind, op.size, op.at, false)];
    } else {
      ListedLater(n.files, m.files, t, if op.Upload? then op.at else t, limits);
    }
  }

  lemma {:induction false} RunListedWithin(m: Mail, ops: seq<Op>, t: int, limits: Limits)
    requires DraftsWithin(Listed(m.files, t), limits) && UploadsInOrder(ops, t)
    ensures DraftsWithin(Listed(Run(m, ops, limits).files, LastUpload(ops, t)), limits)
  {
    if ops != [] {
      var init := ops[..|ops| - 1];
      RunListedWithin(m, init, t, limits);
      NextListedWithin(Run(m, init, limits), ops[|ops| - 1], LastUpload(init, t), limits);
    }
  }

  /** After any sequence of requests, from the last upload on, the drafts younger than 24 hours are within the limits. */
  lemma FreshDraftsWithin(m: Mail, ops: seq<Op>, t: int, now: int, limits: Limits)
    requires DraftsWithin(Listed(m.files, t), limits) && UploadsInOrder(ops, t) && LastUpload(ops, t) <= now
    ensures DraftsWithin(Listed(Run(m, ops, limits).files, now), limits)
  {
    RunListedWithin(m, ops, t, limits);
    ListedLater(Run(m, ops, limits).files, Run(m, ops, limits).files, LastUpload(ops, t), now, limits);
  }

  /** All drafts stay within the limits after an upload if and only if it is refused or the drafts older than 24 hours
      leave room for it, too. */
  lemma AllDraftsWithinIff(m: Mail, id: string, kind: Kind, size: nat, at: int, limits: Limits)
    requires DraftsWithin(m.files, limits) && id !in m.files
    ensures DraftsWithin(Next(m, Upload(id, kind, size, at), limits).files, limits) <==>
            !UploadFits(Listed(m.files, at), kind, size, limits) || UploadFits(m.files, kind, size, limits)
  {
    var f := File(kind, size, at, false);
    UploadCounts(m.files, id, f, kind);
    UploadSize(m.files, id, f);
    if UploadFits(m.files, kind, size, limits) {
      UploadWithin(m.files, id, f, limits);
    }
  }

  /** Two images where one is allowed: the first is older than 24 hours when the second comes. */
  lemma OldDraftsAreNotCounted()
    ensures var limits := Limits(1, 0, 10);
            var n := Run(Mail(None, map[], 0), [Upload("a", Image, 1, 0), Upload("b", Image, 1, 25 * HOUR)], limits);
            n.files == map["a" := File(Image, 1, 0, false), "b" := File(Image, 1, 25 * HOUR, false)]
              && !DraftsWithin(n.files, limits)
  {
    var limits, m, a, b := Limits(1, 0, 10), Mail(None, map[], 0), File(Image, 1, 0, false), File(Image, 1, 25 * HOUR, false);
    var ops := [Upload("a", Image, 1, 0), Upload("b", Image, 1, 25 * HOUR)];
    assert ops[..1] == [Upload("a", Image, 1, 0)] && ops[..1][..0] == [];
    assert Run(m, [], limits) == m;
    FitsTheEmpty(Listed(map[], 0), limits);
    assert Run(m, ops[..1], limits).files == map["a" := a];
    FitsTheEmpty(Listed(map["a" := a], 25 * HOUR), limits);
    var both := map["a" := a, "b" := b];
    assert Run(m, ops, limits).files == both;
    assert DraftsOf(both, Image) == {"a", "b"};
  }

  lemma FitsTheEmpty(files: Files, limits: Limits)
    requires files == map[] && limits == Limits(1, 0, 10)
    ensures UploadFits(files, Image, 1, limits)
  {
    assert DraftsOf(files, Image) == {} && Drafts(files) == {};
  }

  // ----- lost updates

  /** Without a reset in between, an unchanged version number means nobody saved; and versions only grow. */
  lemma {:induction false} SameVersionSameTemplate(m: Mail, ops: seq<Op>, limits: Limits)
    requires forall op <- ops :: op != Reset
    ensures Version(m) <= Version(Run(m, ops, limits))
    ensures Version(Run(m, ops, limits)) == Version(m) ==> Run(m, ops, limits).template == m.template
  {
    if ops != [] {
      var init := ops[..|ops| - 1];
      assert forall op <- init :: op in ops;
      assert ops[|ops| - 1] in ops;
      SameVersionSameTemplate(m, init, limits);
    }
  }

  /** A version that was reset does not come back: later ones carry a later stamp. */
  lemma {:induction false} ResetIsFinal(m: Mail, ops: seq<Op>, limits: Limits)
    requires Inv(m, limits)
    ensures m.clock <= Run(m, ops, limits).clock
    ensures var n := Run(m, ops, limits);
            Reset in ops && n.template.Some? ==> m.clock < n.template.value.stamp
  {
    if ops != [] {
      var init, op := ops[..|ops| - 1], ops[|ops| - 1];
      ResetIsFinal(m, init, limits);
      assert ops == init + [op];
      assert Reset in ops <==> Reset in init || op == Reset;
    }
  }

  /** An editor loads the mail, other requests are handled, then the editor's save finds the version unchanged. It
      replaces the very version the editor loaded exactly when no reset lies in between (or there was none to lose). */
  lemma SaveReplacesWhatWasLoaded(m: Mail, ops: seq<Op>, limits: Limits)
    requires Inv(m, limits) && Version(Run(m, ops, limits)) == Version(m)
    ensures Run(m, ops, limits).template == m.template <==> Reset !in ops || m.template.None?
  {
    CommittedAreUsed(m, ops, limits);
    if Reset in ops {
      ResetIsFinal(m, ops, limits);
    } else {
      assert forall op <- ops :: op != Reset;
      SameVersionSameTemplate(m, ops, limits);
    }
  }

  const TEXT_A: Edit := Edit("A", [], None)
  const TEXT_B: Edit := Edit("B", [], None)

  /** With a reset in between a save can be lost: B saves after the reset, A's save against the version it loaded before
      the reset is accepted and replaces it. */
  lemma ResetHidesASave(limits: Limits)
    requires 0 <= limits.maxImages && 0 <= limits.maxTotal
    ensures var m := Mail(Some(Template(1, 1, TEXT_A)), map[], 1);
            var n := Run(m, [Reset, Save(TEXT_B, 0, 0)], limits);
            Inv(m, limits) && n.template == Some(Template(1, 2, TEXT_B)) && Accepts(n, TEXT_A, Version(m), limits)
  {
    var m := Mail(Some(Template(1, 1, TEXT_A)), map[], 1);
    var ops := [Reset, Save(TEXT_B, 0, 0)];
    assert ops[..1] == [Reset] && ops[..1][..0] == [];
    assert Run(m, [], limits) == m;
    assert Run(m, ops[..1], limits) == Next(m, Reset, limits);
    assert Firsts([]) == [];
  }

  // ----- sending

  /** The committed files with these ids. */
  function CommittedFiles(files: Files, ids: seq<string>): Files {
    map id | id in files && id in ids && files[id].committed :: files[id]
  }

  method GetCommitted(files: Files, ids: seq<string>) returns (r: Files)
    ensures r == CommittedFiles(files, ids)
  {
    r := map[];
    var seen: set<string> := {};
    for i := 0 to |ids|
      invariant forall id :: id in seen <==> id in ids[..i]
      invariant r == CommittedFiles(files, ids[..i])
    {
      assert ids[..i + 1] == ids[..i] + [ids[i]];
      if ids[i] !in seen {
        seen := seen + {ids[i]};
        if ids[i] in files && files[ids[i]].committed {
          r := r[ids[i] := files[ids[i]]];
        }
      }
    }
    assert ids[..|ids|] == ids;
  }

  /** What Render refuses because of the files of the mail. */
  method RenderFiles(e: Edit, files: Files, limits: Limits) returns (r: Option<Refusal>)
    ensures r.None? <==> Acceptable(files, e, limits)
    ensures r == Some(TooLarge) ==> SizeOf(files, e) > limits.maxTotal
    ensures r == Some(MissingImage) || r == Some(MissingAttachment) ==>
              !HasImages(files, e.images) || (e.attachment.Some? && !IsFile(files, e.attachment.value, Attachment))
  {
    if e.attachment.Some? && limits.maxAttachments == 0 {
      return Some(NoAttachments);
    }
    var missing, count, total := CountImages(files, e.images);
    var distinct := CountDistinct(e.images);
    if distinct > limits.maxImages {
      return Some(TooManyImages);
    }
    if e.attachment.Some? && !IsFile(files, e.attachment.value, Attachment) {
      return Some(MissingAttachment);
    }
    if missing {
      return Some(MissingImage);
    }
    if e.attachment.Some? {
      TotalOne(files, e.attachment.value);
      total := total + files[e.attachment.value].size;
    }
    r := if total > limits.maxTotal then Some(TooLarge) else None;
  }

  method CountDistinct(images: seq<string>) returns (n: nat)
    ensures n == |Firsts(images)|
  {
    var seen: set<string> := {};
    n := 0;
    for i := 0 to |images|
      invariant n == |Firsts(images[..i])| && forall id :: id in seen <==> id in images[..i]
    {
      assert images[..i + 1] == images[..i] + [images[i]];
      FirstsStep(images, i);
      if images[i] !in seen {
        seen, n := seen + {images[i]}, n + 1;
      }
    }
    assert images[..|images|] == images;
  }

  function FileIds(e: Edit): seq<string> {
    e.images + if e.attachment.Some? then [e.attachment.value] else []
  }

  /** Sending the stored version finds its files, whole and within the limits, after any sequence of requests. */
  lemma StoredVersionCanBeSent(m: Mail, ops: seq<Op>, limits: Limits)
    requires Inv(m, limits)
    ensures var n := Run(m, ops, limits);
            n.template.Some? ==>
              Acceptable(CommittedFiles(n.files, FileIds(n.template.value.edit)), n.template.value.edit, limits)
  {
    CommittedAreUsed(m, ops, limits);
    var n := Run(m, ops, limits);
    if n.template.Some? {
      UsedExist(n.files, n.template.value.edit, limits);
      AcceptableSame(n.files, CommittedFiles(n.files, FileIds(n.template.value.edit)), n.template.value.edit, limits);
    }
  }

  // ----- the store

  datatype Saved = Stored(template: Template) | Conflict(current: nat) | Refused(why: Refusal)

  class MailStore {
    var template: Option<Template>
    var files: Files
    var clock: nat

    constructor ()
      ensures Value() == Mail(None, map[], 0)
    {
      template, files, clock := None, map[], 0;
    }

    function Value(): Mail
      reads this
    {
      Mail(template, files, clock)
    }

    /** SaveMailTemplate, under the lock of the mail. */
    method SaveTemplate(e: Edit, expected: nat, limits: Limits, now: int) returns (r: Saved)
      modifies this
      ensures Value() == Next(old(Value()), Save(e, expected, now), limits)
      ensures r.Stored? <==> Accepts(old(Value()), e, expected, limits)
      ensures r.Stored? ==> template == Some(r.template)
      ensures r.Conflict? <==> Version(old(Value())) != expected
      ensures r.Conflict? ==> r.current == Version(old(Value()))
      ensures r.Stored? <==>
              (if old(template).Some? then old(template).value.version else 0) == expected && IsWithin(old(files), e, limits)
      ensures !r.Stored? ==> template == old(template) && files == old(files) && clock == old(clock)
      ensures r.Stored? ==>
              template == Some(Template(expected + 1, clock, e)) && old(clock) < clock && AreSaved(old(files), files, e, now)
    {
      AcceptableIsWithin(files, e, limits);
      var current := if template.Some? then template.value.version else 0;
      if current != expected {
        return Conflict(current);
      }
      var why := CheckVersionFiles(files, e, limits);
      if why.Some? {
        return Refused(why.value);
      }
      Store(e, current, now);
      r := Stored(template.value);
    }

    /** The new version, its files committed, without the committed files it does not use and old drafts. */
    method Store(e: Edit, current: nat, now: int)
      modifies this
      ensures clock == old(clock) + 1 && template == Some(Template(current + 1, clock, e))
      ensures files == SavedFiles(old(files), e, now) && AreSaved(old(files), files, e, now)
    {
      clock := clock + 1;
      template := Some(Template(current + 1, clock, e));
      CommitFiles(e);
      files := map id | id in files && (files[id].committed || files[id].createdAt >= now - DRAFT_AGE) :: files[id];
    }

    /** Commits the files the version uses and deletes the committed ones it does not, in any order. */
    method CommitFiles(e: Edit)
      modifies `files
      ensures files == map id | id in old(files) && (Uses(e, id) || !old(files)[id].committed) ::
                         if Uses(e, id) then old(files)[id].(committed := true) else old(files)[id]
    {
      var all := files;
      var todo := all.Keys;
      while todo != {}
        invariant todo <= all.Keys
        invariant forall id :: id in files <==> id in all && (id in todo || Uses(e, id) || !all[id].committed)
        invariant forall id <- files :: files[id] ==
                    if id !in todo && Uses(e, id) then all[id].(committed := true) else all[id]
      {
        var id :| id in todo;
        todo := todo - {id};
        if Uses(e, id) {
          if !all[id].committed {
            files := files[id := files[id].(committed := true)];
          }
        } else if all[id].committed {
          files := files - {id};
        }
      }
    }

    /** InsertMailTemplateFile with the upload's check against the drafts of the last 24 hours. */
    method InsertFile(id: string, kind: Kind, size: nat, at: int, limits: Limits) returns (ok: bool, why: Option<Refusal>)
      modifies this
      ensures Value() == Next(old(Value()), Upload(id, kind, size, at), limits)
      ensures ok <==> id !in old(files) && UploadFits(Listed(old(files), at), kind, size, limits)
      ensures ok ==> id in files && files[id] == File(kind, size, at, false)
      ensures why.None? <==> UploadFits(Listed(old(files), at), kind, size, limits)
      ensures ok <==> id !in old(files) && HasRoom(old(files), kind, size, at, limits)
      ensures files == (if ok then old(files)[id := File(kind, size, at, false)] else old(files)) && template == old(template)
    {
      ListedHasRoom(files, kind, size, at, limits);
      why := CheckUpload(Listed(files, at), kind, size, limits);
      ok := why.None? && id !in files;
      if ok {
        files := files[id := File(kind, size, at, false)];
      }
    }

    method DeleteFile(id: string) returns (deleted: bool)
      modifies this
      ensures forall limits :: Value() == Next(old(Value()), DeleteDraft(id), limits)
      ensures deleted <==> id in old(files) && !old(files)[id].committed
      ensures files == (if deleted then old(files) - {id} else old(files)) && template == old(template)
    {
      deleted := id in files && !files[id].committed;
      if deleted {
        files := files - {id};
      }
    }

    method DeleteTemplate()
      modifies this
      ensures forall limits :: Value() == Next(old(Value()), Reset, limits)
      ensures template == None && files == map[]
    {
      files := map[];
      template := None;
    }

    /** SendFromTemplate, up to the files: None when there is no version, else what Render refuses. */
    method FilesToSend(limits: Limits) returns (r: Option<Refusal>)
      requires Inv(Value(), limits)
      ensures r.None?
    {
      if template.None? {
        return None;
      }
      var loaded := GetCommitted(files, FileIds(template.value.edit));
      StoredVersionCanBeSent(Value(), [], limits);
      r := RenderFiles(template.value.edit, loaded, limits);
    }
  }
}
