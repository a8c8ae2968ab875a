/** Changing the settlement interval of a community (model/settlementInterval.go). Months are year * 12 + month - 1. */
module Settlement {
  import opened Wrappers

  datatype Interval = Monthly | Quarter | Biannual | Annual

  function Months(i: Interval): int {
    match i case Monthly => 1 case Quarter => 3 case Biannual => 6 case Annual => 12
  }

  /** The identifier types Y, YH, YQ and YM. */
  datatype Kind = Year | HalfYear | QuarterYear | Month

  function KindMonths(k: Kind): int {
    match k case Year => 12 case HalfYear => 6 case QuarterYear => 3 case Month => 1
  }

  /** The months a clearing period identifier covers. */
  datatype Period = Period(kind: Kind, first: int, last: int)

  const MIN_YEAR := 2000
  const MAX_YEAR := 2100
  const GAP_WINDOW := 12

  // ----- identifiers

  predicate Digits(s: string) {
    forall c <- s :: '0' <= c <= '9'
  }

  function Number(s: string): int {
    if s == "" then 0 else 10 * Number(s[..|s| - 1]) + (s[|s| - 1] as int - '0' as int)
  }

  function KindText(k: Kind): string {
    match k case Year => "Y-" case HalfYear => "YH-" case QuarterYear => "YQ-" case Month => "YM-"
  }

  /** The identifier type and what follows it. */
  function ReadKind(s: string): Option<(Kind, string)> {
    if KindText(Year) <= s then Some((Year, s[2..]))
    else if KindText(HalfYear) <= s then Some((HalfYear, s[3..]))
    else if KindText(QuarterYear) <= s then Some((QuarterYear, s[3..]))
    else if KindText(Month) <= s then Some((Month, s[3..]))
    else None
  }

  /** The number after the year, 0 when there is none. */
  function ReadIndex(s: string): Option<int> {
    if s == "" then Some(0)
    else if s[0] == '-' && 2 <= |s| <= 3 && Digits(s[1..]) then Some(Number(s[1..]))
    else None
  }

  /** The period counts as aligned: it is one of the calendar's periods of its type, in the years allowed. */
  predicate Aligned(p: Period) {
    && p.first % KindMonths(p.kind) == 0 && p.last == p.first + KindMonths(p.kind) - 1
    && MIN_YEAR * 12 <= p.first && p.last < (MAX_YEAR + 1) * 12
  }

  /** The period `index` of a year, counted from 1. */
  function PeriodOf(kind: Kind, year: int, index: int): (p: Period)
    ensures MIN_YEAR <= year <= MAX_YEAR && 1 <= index <= 12 / KindMonths(kind) ==> Aligned(p)
  {
    var first := year * 12 + (index - 1) * KindMonths(kind);
    Period(kind, first, first + KindMonths(kind) - 1)
  }

  /** parseClearingPeriod: Abr_<type>-<4 digits>[-<1 or 2 digits>], the number ignored for a year. */
  function Parse(id: string): (r: Option<Period>)
    ensures r.Some? ==> Aligned(r.value)
  {
    if !("Abr_" <= id) then None
    else match ReadKind(id[4..])
      case None => None
      case Some((kind, rest)) =>
        if |rest| < 4 || !Digits(rest[..4]) || ReadIndex(rest[4..]).None? then None
        else InCalendar(kind, Number(rest[..4]), ReadIndex(rest[4..]).value)
  }

  /** The years and numbers allowed. */
  function InCalendar(kind: Kind, year: int, index: int): (r: Option<Period>)
    ensures r.Some? ==> Aligned(r.value)
  {
    if year < MIN_YEAR || MAX_YEAR < year then None
    else if kind == Year then Some(PeriodOf(kind, year, 1))
    else if index < 1 || 12 / KindMonths(kind) < index then None
    else Some(PeriodOf(kind, year, index))
  }

  /** An identifier of the form Abr_<type>-<4 digits>, with or without a number of one or two digits. */
  predicate IsIdentifier(id: string, kind: Kind, year: string, number: string) {
    && |year| == 4 && Digits(year) && |number| <= 2 && Digits(number)
    && id == "Abr_" + KindText(kind) + year + NumberText(number)
  }

  function NumberText(number: string): string {
    if number == "" then "" else "-" + number
  }

  /** The identifier is that of the period: the year's of a number in the calendar, the number ignored for a year. */
  ghost predicate Names(id: string, p: Period) {
    exists year, number ::
      && IsIdentifier(id, p.kind, year, number) && 2000 <= Number(year) <= 2100
      && (p.kind != Year ==> 1 <= Number(number) <= 12 / KindMonths(p.kind))
      && p == PeriodOf(p.kind, Number(year), if p.kind == Year then 1 else Number(number))
  }

  function Digit(n: int): char
    requires 0 <= n < 10
  {
    '0' + n as char
  }

  function Decimal(n: int): (s: string)
    requires 0 <= n < 100
  {
    if n < 10 then [Digit(n)] else [Digit(n / 10), Digit(n % 10)]
  }

  /** The identifier of a period. */
  function NameOf(p: Period): string
    requires Aligned(p)
  {
    var year := p.first / 12;
    "Abr_" + KindText(p.kind) + (Decimal(year / 100) + [Digit(year / 10 % 10), Digit(year % 10)]) + "-" +
    Decimal(p.first % 12 / KindMonths(p.kind) + 1)
  }

  lemma NumberSnoc(s: string, n: int)
    requires 0 <= n < 10
    ensures Number(s + [Digit(n)]) == 10 * Number(s) + n
  {
    assert (s + [Digit(n)])[..|s|] == s;
  }

  lemma DigitReads(n: int)
    requires 0 <= n < 10
    ensures Number([Digit(n)]) == n && Digits([Digit(n)])
  {
    NumberSnoc("", n);
    assert "" + [Digit(n)] == [Digit(n)];
  }

  lemma DecimalReads(n: int)
    requires 0 <= n < 100
    ensures Number(Decimal(n)) == n && Digits(Decimal(n))
  {
    if n < 10 {
      DigitReads(n);
    } else {
      TwoDigitsRead(n / 10, n % 10);
    }
  }

  lemma TwoDigitsRead(a: int, b: int)
    requires 0 <= a < 10 && 0 <= b < 10
    ensures Number([Digit(a), Digit(b)]) == 10 * a + b && Digits([Digit(a), Digit(b)])
  {
    DigitReads(a);
    NumberSnoc([Digit(a)], b);
    assert [Digit(a)] + [Digit(b)] == [Digit(a), Digit(b)];
  }

  lemma YearReads(year: int)
    requires 1000 <= year < 10000
    ensures var s := Decimal(year / 100) + [Digit(year / 10 % 10), Digit(year % 10)];
            |s| == 4 && Digits(s) && Number(s) == year
  {
    var century := Decimal(year / 100);
    DecimalReads(year / 100);
    NumberSnoc(century, year / 10 % 10);
    NumberSnoc(century + [Digit(year / 10 % 10)], year % 10);
    assert century + [Digit(year / 10 % 10)] + [Digit(year % 10)] == century + [Digit(year / 10 % 10), Digit(year % 10)];
  }

  lemma AlignedIndex(p: Period)
    requires Aligned(p)
    ensures var index := p.first % 12 / KindMonths(p.kind) + 1;
            1 <= index <= 12 / KindMonths(p.kind) && p == PeriodOf(p.kind, p.first / 12, index)
    ensures MIN_YEAR <= p.first / 12 <= MAX_YEAR
  {
  }

  lemma KindReads(kind: Kind, rest: string)
    ensures ReadKind(KindText(kind) + rest) == Some((kind, rest))
  {
    var s := KindText(kind) + rest;
    assert s[1] == KindText(kind)[1] && KindText(kind) <= s && s[|KindText(kind)|..] == rest;
    assert KindText(Year)[1] == '-' && KindText(HalfYear)[1] == 'H' && KindText(QuarterYear)[1] == 'Q';
    assert forall k :: KindText(k) <= s ==> KindText(k)[1] == s[1];
  }

  lemma ParseParts(kind: Kind, year: string, number: string)
    requires |year| == 4 && 1 <= |number| <= 2 && Digits(year) && Digits(number)
    ensures Parse("Abr_" + KindText(kind) + year + "-" + number) == InCalendar(kind, Number(year), Number(number))
  {
    KindReads(kind, year + "-" + number);
    IdParts(KindText(kind), year, number);
    IndexReads(number);
  }

  lemma CalendarReads(p: Period)
    requires Aligned(p)
    ensures InCalendar(p.kind, p.first / 12, p.first % 12 / KindMonths(p.kind) + 1) == Some(p)
  {
    AlignedIndex(p);
    var year, index := p.first / 12, p.first % 12 / KindMonths(p.kind) + 1;
    assert p.kind == Year ==> index == 1;
    ReadsBack(p.kind, year, index);
  }

  lemma ReadsBack(kind: Kind, year: int, index: int)
    requires MIN_YEAR <= year <= MAX_YEAR && 1 <= index <= 12 / KindMonths(kind) && (kind == Year ==> index == 1)
    ensures InCalendar(kind, year, index) == Some(PeriodOf(kind, year, index))
  {
  }

  /** Every period of the calendar from 2000 to 2100 has an identifier that reads back as this period. */
  lemma NameReadsBack(p: Period)
    requires Aligned(p)
    ensures Parse(NameOf(p)) == Some(p)
  {
    CalendarReads(p);
    AlignedIndex(p);
    var year, index := p.first / 12, p.first % 12 / KindMonths(p.kind) + 1;
    YearReads(year);
    DecimalReads(index);
    ParseParts(p.kind, Decimal(year / 100) + [Digit(year / 10 % 10), Digit(year % 10)], Decimal(index));
  }

  lemma IndexReads(number: string)
    requires 1 <= |number| <= 2 && Digits(number)
    ensures ReadIndex("-" + number) == Some(Number(number))
  {
    assert ("-" + number)[1..] == number;
  }

  lemma IdParts(kind: string, year: string, number: string)
    requires |year| == 4
    ensures var id, rest := "Abr_" + kind + year + "-" + number, year + "-" + number;
            "Abr_" <= id && id[4..] == kind + rest && rest[..4] == year && rest[4..] == "-" + number
  {
    var id, rest := "Abr_" + kind + year + "-" + number, year + "-" + number;
    assert id == "Abr_" + (kind + rest);
  }

  lemma NumberTextReads(number: string)
    requires |number| <= 2 && Digits(number)
    ensures ReadIndex(NumberText(number)) == Some(Number(number))
  {
    if number != "" {
      IndexReads(number);
    }
  }

  lemma Regroup(a: string, b: string, c: string, d: string)
    ensures a + b + c + d == a + (b + (c + d))
  {
  }

  lemma DropFirst(a: string, b: string)
    ensures a <= a + b && (a + b)[..|a|] == a && (a + b)[|a|..] == b
  {
  }

  lemma IdentifierParts(id: string, kind: Kind, year: string, number: string)
    requires IsIdentifier(id, kind, year, number)
    ensures "Abr_" <= id && ReadKind(id[4..]) == Some((kind, year + NumberText(number)))
    ensures (year + NumberText(number))[..4] == year && (year + NumberText(number))[4..] == NumberText(number)
  {
    var rest := year + NumberText(number);
    Regroup("Abr_", KindText(kind), year, NumberText(number));
    DropFirst("Abr_", KindText(kind) + rest);
    DropFirst(year, NumberText(number));
    KindReads(kind, rest);
  }

  lemma IdentifierParses(id: string, kind: Kind, year: string, number: string)
    requires IsIdentifier(id, kind, year, number)
    ensures Parse(id) == InCalendar(kind, Number(year), Number(number))
  {
    IdentifierParts(id, kind, year, number);
    NumberTextReads(number);
  }

  lemma TakeAndDrop(s: string, n: nat)
    requires n <= |s|
    ensures s == s[..n] + s[n..]
  {
  }

  lemma KindRest(s: string)
    requires ReadKind(s).Some?
    ensures s == KindText(ReadKind(s).value.0) + ReadKind(s).value.1
  {
    var kind := KindText(ReadKind(s).value.0);
    TakeAndDrop(s, |kind|);
  }

  lemma IndexText(s: string) returns (number: string)
    requires ReadIndex(s).Some?
    ensures |number| <= 2 && Digits(number) && s == NumberText(number)
  {
    if s == "" {
      number := "";
    } else {
      number := s[1..];
      TakeAndDrop(s, 1);
    }
  }

  /** What parses has the form of an identifier. */
  lemma ParsedIsIdentifier(id: string) returns (kind: Kind, year: string, number: string)
    requires Parse(id).Some?
    ensures IsIdentifier(id, kind, year, number)
  {
    var (k, rest) := ReadKind(id[4..]).value;
    KindRest(id[4..]);
    TakeAndDrop(id, 4);
    TakeAndDrop(rest, 4);
    kind, year := k, rest[..4];
    number := IndexText(rest[4..]);
    Regroup("Abr_", KindText(kind), year, NumberText(number));
  }

  /** Exactly the identifiers of the periods of the calendar from 2000 to 2100 are readable, and read as their period. */
  lemma ParseIsExact(id: string, p: Period)
    ensures Parse(id) == Some(p) <==> Names(id, p)
  {
    if Parse(id).Some? {
      var kind, year, number := ParsedIsIdentifier(id);
      IdentifierParses(id, kind, year, number);
      assert Parse(id) == Some(p) ==> p.kind == kind && IsIdentifier(id, p.kind, year, number);
    }
    if Names(id, p) {
      var year, number :| IsIdentifier(id, p.kind, year, number) && 2000 <= Number(year) <= 2100
                          && (p.kind != Year ==> 1 <= Number(number) <= 12 / KindMonths(p.kind))
                          && p == PeriodOf(p.kind, Number(year), if p.kind == Year then 1 else Number(number));
      IdentifierParses(id, p.kind, year, number);
    }
  }

  // ----- the months no final period covers

  /** Sorted ranges with a month between each two: exactly the months of from..to outside `covered`. */
  predicate AreGaps(covered: set<int>, from: int, to: int, gaps: seq<(int, int)>) {
    && (forall k :: 0 <= k < |gaps| ==> from <= gaps[k].0 <= gaps[k].1 <= to)
    && (forall k :: 0 < k < |gaps| ==> gaps[k - 1].1 + 1 < gaps[k].0)
    && (forall m :: from <= m <= to ==> (m !in covered <==> InGap(gaps, m)))
  }

  predicate InGap(gaps: seq<(int, int)>, m: int) {
    exists k :: 0 <= k < |gaps| && gaps[k].0 <= m <= gaps[k].1
  }

  lemma InGapSnoc(gaps: seq<(int, int)>, g: (int, int), m: int)
    ensures InGap(gaps + [g], m) <==> InGap(gaps, m) || g.0 <= m <= g.1
  {
    var all := gaps + [g];
    assert all[|gaps|] == g;
    assert forall k :: 0 <= k < |gaps| ==> all[k] == gaps[k];
  }

  lemma GapsSnoc(covered: set<int>, from: int, m: int, gaps: seq<(int, int)>, gaps': seq<(int, int)>)
    requires from <= m && AreGaps(covered, from, m - 1, gaps) && m !in covered
    requires if gaps != [] && gaps[|gaps| - 1].1 == m - 1 then gaps' == gaps[..|gaps| - 1] + [(gaps[|gaps| - 1].0, m)]
             else gaps' == gaps + [(m, m)]
    ensures AreGaps(covered, from, m, gaps')
  {
    forall x
      ensures InGap(gaps', x) <==> InGap(gaps, x) || x == m
    {
      if gaps != [] && gaps[|gaps| - 1].1 == m - 1 {
        var init := gaps[..|gaps| - 1];
        assert gaps == init + [gaps[|gaps| - 1]];
        InGapSnoc(init, (gaps[|gaps| - 1].0, m), x);
        InGapSnoc(init, gaps[|gaps| - 1], x);
      } else {
        InGapSnoc(gaps, (m, m), x);
      }
    }
  }

  /** uncovered */
  method Uncovered(covered: set<int>, first: int, last: int) returns (gaps: seq<(int, int)>)
    requires first <= last + 1
    ensures AreGaps(covered, first, last, gaps)
  {
    gaps := [];
    for m := first to last + 1
      invariant AreGaps(covered, first, m - 1, gaps)
    {
      ghost var before := gaps;
      if m in covered {
      } else if |gaps| > 0 && gaps[|gaps| - 1].1 == m - 1 {
        gaps := gaps[..|gaps| - 1] + [(gaps[|gaps| - 1].0, m)];
        GapsSnoc(covered, first, m, before, gaps);
      } else {
        gaps := gaps + [(m, m)];
        GapsSnoc(covered, first, m, before, gaps);
      }
    }
  }

  lemma GapsTail(covered: set<int>, from: int, to: int, gaps: seq<(int, int)>)
    requires AreGaps(covered, from, to, gaps) && gaps != []
    ensures AreGaps(covered, gaps[0].1 + 1, to, gaps[1..])
    ensures forall k :: 0 < k < |gaps| ==> gaps[0].1 + 1 < gaps[k].0
  {
    var tail := gaps[1..];
    Sorted(covered, from, to, gaps);
    forall m | gaps[0].1 + 1 <= m <= to
      ensures InGap(gaps, m) <==> InGap(tail, m)
    {
      assert forall k :: 0 < k < |gaps| ==> gaps[k] == tail[k - 1];
    }
    assert forall k :: 0 <= k < |tail| ==> tail[k] == gaps[k + 1];
  }

  lemma {:induction false} Sorted(covered: set<int>, from: int, to: int, gaps: seq<(int, int)>)
    requires AreGaps(covered, from, to, gaps)
    ensures forall j, k :: 0 <= j < k < |gaps| ==> gaps[j].1 + 1 < gaps[k].0
  {
    forall j, k | 0 <= j < k < |gaps|
      ensures gaps[j].1 + 1 < gaps[k].0
    {
      SortedPair(covered, from, to, gaps, j, k);
    }
  }

  lemma {:induction false} SortedPair(covered: set<int>, from: int, to: int, gaps: seq<(int, int)>, j: nat, k: nat)
    requires AreGaps(covered, from, to, gaps) && j < k < |gaps|
    ensures gaps[j].1 + 1 < gaps[k].0
  {
    if j + 1 < k {
      SortedPair(covered, from, to, gaps, j, k - 1);
    }
  }

  /** The ranges are maximal: no other list says the same. */
  lemma {:induction false} GapsAreUnique(covered: set<int>, from: int, to: int, a: seq<(int, int)>, b: seq<(int, int)>)
    requires AreGaps(covered, from, to, a) && AreGaps(covered, from, to, b)
    ensures a == b
    decreases |a|
  {
    NotOnlyOneEmpty(covered, from, to, a, b);
    if a != [] {
      SameHead(covered, from, to, a, b);
      SameHead(covered, from, to, b, a);
      GapsTail(covered, from, to, a);
      GapsTail(covered, from, to, b);
      GapsAreUnique(covered, a[0].1 + 1, to, a[1..], b[1..]);
      assert a == [a[0]] + a[1..] && b == [b[0]] + b[1..];
    }
  }

  lemma NotOnlyOneEmpty(covered: set<int>, from: int, to: int, a: seq<(int, int)>, b: seq<(int, int)>)
    requires AreGaps(covered, from, to, a) && AreGaps(covered, from, to, b)
    ensures a == [] <==> b == []
  {
    assert a != [] ==> InGap(a, a[0].0);
    assert b != [] ==> InGap(b, b[0].0);
  }

  lemma SameHead(covered: set<int>, from: int, to: int, a: seq<(int, int)>, b: seq<(int, int)>)
    requires AreGaps(covered, from, to, a) && AreGaps(covered, from, to, b) && a != [] && b != []
    ensures b[0].0 <= a[0].0 && (b[0].0 == a[0].0 ==> a[0].1 <= b[0].1)
  {
    Sorted(covered, from, to, b);
    assert InGap(a, a[0].0);
    assert InGap(b, a[0].0);
    assert !InGap(b, b[0].1 + 1);
    assert b[0].0 == a[0].0 && b[0].1 < a[0].1 ==> InGap(a, b[0].1 + 1);
  }

  /** `part` is what the ranges hold inside a half line. */
  ghost predicate IsPart(gaps: seq<(int, int)>, inside: int -> bool, part: seq<(int, int)>) {
    && (forall k :: 0 < k < |part| ==> part[k - 1].1 + 1 < part[k].0)
    && (forall k :: 0 <= k < |part| ==> part[k].0 <= part[k].1)
    && (forall m {:trigger InGap(part, m)} :: InGap(part, m) <==> inside(m) && InGap(gaps, m))
  }

  ghost predicate Ends(part: seq<(int, int)>, m: int) {
    forall k :: 0 <= k < |part| ==> part[k].1 + 1 < m
  }

  lemma PartSnoc(gaps: seq<(int, int)>, g: (int, int), inside: int -> bool, part: seq<(int, int)>, h: (int, int))
    requires IsPart(gaps, inside, part) && Ends(part, h.0) && h.0 <= h.1
    requires forall m :: inside(m) && g.0 <= m <= g.1 <==> h.0 <= m <= h.1
    ensures IsPart(gaps + [g], inside, part + [h])
  {
    forall m
      ensures InGap(part + [h], m) <==> inside(m) && InGap(gaps + [g], m)
    {
      InGapSnoc(gaps, g, m);
      InGapSnoc(part, h, m);
      assert InGap(part, m) <==> inside(m) && InGap(gaps, m);
      assert inside(m) && g.0 <= m <= g.1 <==> h.0 <= m <= h.1;
    }
  }

  lemma PartSkip(gaps: seq<(int, int)>, g: (int, int), inside: int -> bool, part: seq<(int, int)>)
    requires IsPart(gaps, inside, part) && forall m :: g.0 <= m <= g.1 ==> !inside(m)
    ensures IsPart(gaps + [g], inside, part)
  {
    forall m
      ensures InGap(part, m) <==> inside(m) && InGap(gaps + [g], m)
    {
      InGapSnoc(gaps, g, m);
    }
  }

  lemma PartIsGaps(covered: set<int>, first: int, last: int, gaps: seq<(int, int)>, inside: int -> bool,
                   part: seq<(int, int)>, lo: int, hi: int)
    requires AreGaps(covered, first, last, gaps) && IsPart(gaps, inside, part)
    requires forall m :: lo <= m <= hi <==> first <= m <= last && inside(m)
    ensures AreGaps(covered, lo, hi, part)
  {
    forall m | InGap(part, m)
      ensures lo <= m <= hi
    {
      assert inside(m) && InGap(gaps, m);
    }
    forall k | 0 <= k < |part|
      ensures lo <= part[k].0 && part[k].1 <= hi
    {
      assert InGap(part, part[k].0) && InGap(part, part[k].1);
    }
    forall m | lo <= m <= hi
      ensures m !in covered <==> InGap(part, m)
    {
      assert inside(m);
    }
  }

  ghost function FromOn(from: int): int -> bool {
    m => from <= m
  }

  ghost function BeforeMonth(from: int): int -> bool {
    m => m < from
  }

  /** splitGaps: the gaps from month `from` on and those before; one that spans it is cut. */
  method SplitGaps(covered: set<int>, first: int, last: int, gaps: seq<(int, int)>, from: int)
    returns (recent: seq<(int, int)>, older: seq<(int, int)>)
    requires AreGaps(covered, first, last, gaps)
    ensures AreGaps(covered, Max(first, from), last, recent) && AreGaps(covered, first, Min(last, from - 1), older)
  {
    recent, older := [], [];
    Sorted(covered, first, last, gaps);
    for i := 0 to |gaps|
      invariant IsPart(gaps[..i], FromOn(from), recent) && IsPart(gaps[..i], BeforeMonth(from), older)
      invariant i < |gaps| ==> Ends(recent, gaps[i].0) && Ends(older, gaps[i].0)
    {
      var g := gaps[i];
      assert gaps[..i + 1] == gaps[..i] + [g];
      if g.0 >= from {
        PartSnoc(gaps[..i], g, FromOn(from), recent, g);
        PartSkip(gaps[..i], g, BeforeMonth(from), older);
        recent := recent + [g];
      } else if g.1 < from {
        PartSkip(gaps[..i], g, FromOn(from), recent);
        PartSnoc(gaps[..i], g, BeforeMonth(from), older, g);
        older := older + [g];
      } else {
        PartSnoc(gaps[..i], g, FromOn(from), recent, (from, g.1));
        PartSnoc(gaps[..i], g, BeforeMonth(from), older, (g.0, from - 1));
        older := older + [(g.0, from - 1)];
        recent := recent + [(from, g.1)];
      }
    }
    assert gaps[..|gaps|] == gaps;
    PartIsGaps(covered, first, last, gaps, FromOn(from), recent, Max(first, from), last);
    PartIsGaps(covered, first, last, gaps, BeforeMonth(from), older, first, Min(last, from - 1));
  }

  // ----- the decision

  /** The data of the answer's text. */
  datatype Message =
    | AtOnce
    | StillRunning(period: Period)
    | NotBilled(gaps: seq<(int, int)>)
    | FirstToBoundary(first: int, last: int)
    | AppliesFrom(older: seq<(int, int)>)

  datatype Decision = Decision(allowed: bool, effectiveFrom: Option<int>, lastFinal: Option<string>,
                               earliestFrom: Option<int>, message: Message)

  predicate Readable(ids: seq<string>) {
    forall id <- ids :: Parse(id).Some?
  }

  function Parsed(ids: seq<string>): (r: seq<Period>)
    requires Readable(ids)
    ensures |r| == |ids| && forall i :: 0 <= i < |ids| ==> Parse(ids[i]) == Some(r[i])
  {
    seq(|ids|, i requires 0 <= i < |ids| => Parse(ids[i]).value)
  }

  predicate Covers(periods: seq<Period>, m: int) {
    exists p <- periods :: p.first <= m <= p.last
  }

  /** `f` is the first and `l` the last month of the periods. */
  predicate Spans(periods: seq<Period>, f: int, l: int) {
    && (exists p <- periods :: p.first == f) && (forall p <- periods :: f <= p.first)
    && (exists p <- periods :: p.last == l) && (forall p <- periods :: p.last <= l)
  }

  /** Each of the last twelve months, from the first final period on, is billed. */
  predicate NoRecentGap(finals: seq<Period>, f: int, l: int) {
    forall m :: Max(f, l - 11) <= m <= l ==> Covers(finals, m)
  }

  predicate NoneFrom(runs: seq<Period>, start: int) {
    forall p <- runs :: p.last < start
  }

  /** The rule for final periods from month `f` to month `l`: no recent gap, the next month starts a period of the new
      interval, nothing running from there on. */
  predicate MayChangeAt(interval: Interval, finals: seq<Period>, runs: seq<Period>, f: int, l: int) {
    NoRecentGap(finals, f, l) && (l + 1) % Months(interval) == 0 && NoneFrom(runs, l + 1)
  }

  /** The rule. */
  ghost predicate MayChange(interval: Interval, finals: seq<Period>, runs: seq<Period>) {
    if finals == [] then runs == []
    else forall f, l :: Spans(finals, f, l) ==> MayChangeAt(interval, finals, runs, f, l)
  }

  /** The next start of a period of the interval after `start`. */
  predicate NextStart(interval: Interval, start: int, e: int) {
    e % Months(interval) == 0 && start < e < start + Months(interval)
  }

  predicate FirstFrom(runs: seq<Period>, start: int, p: Period) {
    exists i :: 0 <= i < |runs| && runs[i] == p && p.last >= start && NoneFrom(runs[..i], start)
  }

  /** The whole answer, for final periods spanning f..l that cover exactly the months `covered`. */
  predicate Answers(interval: Interval, finals: seq<Period>, runs: seq<Period>, covered: set<int>, f: int, l: int, d: Decision) {
    var start := l + 1;
    && (d.allowed <==> d.effectiveFrom == Some(start)) && (!d.allowed <==> d.effectiveFrom == None)
    && (d.earliestFrom.Some? <==> d.message.FirstToBoundary?)
    && match d.message
       case NotBilled(gaps) => !d.allowed && gaps != [] && AreGaps(covered, Max(f, l - 11), l, gaps)
       case FirstToBoundary(first, last) =>
         && !d.allowed && NoRecentGap(finals, f, l) && first == start && NextStart(interval, start, last + 1)
         && first / 12 == last / 12 && d.earliestFrom == Some(last + 1)
       case StillRunning(p) =>
         !d.allowed && NoRecentGap(finals, f, l) && start % Months(interval) == 0 && FirstFrom(runs, start, p)
       case AppliesFrom(older) =>
         && d.allowed && NoRecentGap(finals, f, l) && start % Months(interval) == 0 && NoneFrom(runs, start)
         && AreGaps(covered, f, Min(l, l - 12), older)
       case AtOnce => false
  }

  /** runningFrom */
  method RunningFrom(running: seq<string>, start: int) returns (p: Option<Period>)
    requires Readable(running)
    ensures p.None? <==> NoneFrom(Parsed(running), start)
    ensures p.Some? ==> FirstFrom(Parsed(running), start, p.value)
  {
    ghost var runs := Parsed(running);
    for i := 0 to |running|
      invariant NoneFrom(runs[..i], start)
    {
      assert running[i] in running && Parse(running[i]) == Some(runs[i]);
      assert runs[..i + 1] == runs[..i] + [runs[i]];
      if Parse(running[i]).value.last >= start {
        assert runs[i] in runs;
        return Parse(running[i]);
      }
    }
    assert runs[..|runs|] == runs;
    p := None;
  }

  /** `covered` holds the months of the periods. */
  ghost predicate AreMonths(covered: set<int>, periods: seq<Period>) {
    forall m :: m in covered <==> Covers(periods, m)
  }

  method CoverMonths(covered: set<int>, p: Period, ghost periods: seq<Period>) returns (r: set<int>)
    requires p.first <= p.last && AreMonths(covered, periods)
    ensures AreMonths(r, periods + [p])
  {
    r := covered;
    for m := p.first to p.last + 1
      invariant forall x :: x in r <==> x in covered || p.first <= x < m
    {
      r := r + {m};
    }
    CoversSnoc(periods, p);
  }

  lemma CoversSnoc(periods: seq<Period>, p: Period)
    ensures forall m :: Covers(periods + [p], m) <==> Covers(periods, m) || p.first <= m <= p.last
  {
    forall m
      ensures Covers(periods + [p], m) <==> Covers(periods, m) || p.first <= m <= p.last
    {
      assert p in periods + [p];
      assert forall q <- periods :: q in periods + [p];
    }
  }

  lemma SpansSnoc(periods: seq<Period>, p: Period, f: int, l: int)
    requires periods == [] || Spans(periods, f, l)
    ensures Spans(periods + [p], if periods == [] || p.first < f then p.first else f,
                  if periods == [] || l < p.last then p.last else l)
  {
    var all := periods + [p];
    assert p in all && forall q <- periods :: q in all;
    assert forall q <- all :: q in periods || q == p;
  }

  /** `id` is the first identifier whose period ends in month `last`, the last of all. */
  predicate EndsLast(ids: seq<string>, finals: seq<Period>, id: string, last: int)
    requires |ids| == |finals|
  {
    exists i :: 0 <= i < |ids| && ids[i] == id && finals[i].last == last && forall j :: 0 <= j < i ==> finals[j].last < last
  }

  lemma EndsLastSnoc(ids: seq<string>, finals: seq<Period>, id: string, last: int, next: string, p: Period)
    requires |ids| == |finals| && (ids == [] || (EndsLast(ids, finals, id, last) && forall q <- finals :: q.last <= last))
    ensures if ids == [] || last < p.last then EndsLast(ids + [next], finals + [p], next, p.last)
            else EndsLast(ids + [next], finals + [p], id, last)
  {
    var all, ps := ids + [next], finals + [p];
    if ids == [] || last < p.last {
      assert all[|ids|] == next && ps[|ids|] == p;
      assert forall j :: 0 <= j < |ids| ==> ps[j] == finals[j] && finals[j] in finals;
    } else {
      var i :| 0 <= i < |ids| && ids[i] == id && finals[i].last == last && forall j :: 0 <= j < i ==> finals[j].last < last;
      assert all[i] == id && ps[i] == finals[i] && forall j :: 0 <= j < i ==> ps[j] == finals[j];
    }
  }

  /** What the loop over the final periods has found. */
  predicate Found(ids: seq<string>, finals: seq<Period>, first: int, last: int, lastId: string)
    requires |ids| == |finals|
  {
    if ids == [] then first == -1 && last == -1
    else 0 <= first && 0 <= last && Spans(finals, first, last) && EndsLast(ids, finals, lastId, last)
  }

  lemma FoundSnoc(ids: seq<string>, finals: seq<Period>, first: int, last: int, lastId: string, id: string, p: Period,
                  first': int, last': int, lastId': string)
    requires |ids| == |finals| && Found(ids, finals, first, last, lastId) && 0 <= p.first <= p.last
    requires first' == (if first < 0 || p.first < first then p.first else first)
    requires last' == (if p.last > last then p.last else last) && lastId' == if p.last > last then id else lastId
    ensures Found(ids + [id], finals + [p], first', last', lastId')
  {
    SpansSnoc(finals, p, first, last);
    EndsLastSnoc(ids, finals, lastId, last, id, p);
  }

  function FirstMonth(ps: seq<Period>): int {
    if ps == [] then -1
    else
      var f, p := FirstMonth(ps[..|ps| - 1]), ps[|ps| - 1];
      if f < 0 || p.first < f then p.first else f
  }

  function LastMonth(ps: seq<Period>): int {
    if ps == [] then -1
    else
      var l, p := LastMonth(ps[..|ps| - 1]), ps[|ps| - 1];
      if p.last > l then p.last else l
  }

  function LastId(ids: seq<string>, ps: seq<Period>): string
    requires |ids| == |ps|
  {
    if ps == [] then ""
    else
      var n := |ps| - 1;
      if ps[n].last > LastMonth(ps[..n]) then ids[n] else LastId(ids[..n], ps[..n])
  }

  lemma {:induction false} FoundByLoop(ids: seq<string>, ps: seq<Period>)
    requires |ids| == |ps| && forall p <- ps :: 0 <= p.first <= p.last
    ensures Found(ids, ps, FirstMonth(ps), LastMonth(ps), LastId(ids, ps))
  {
    if ps != [] {
      var n := |ps| - 1;
      FoundByLoop(ids[..n], ps[..n]);
      assert ids == ids[..n] + [ids[n]] && ps == ps[..n] + [ps[n]];
      FoundSnoc(ids[..n], ps[..n], FirstMonth(ps[..n]), LastMonth(ps[..n]), LastId(ids[..n], ps[..n]), ids[n], ps[n],
                FirstMonth(ps), LastMonth(ps), LastId(ids, ps));
    }
  }

  lemma ParsedAligned(ids: seq<string>)
    requires Readable(ids)
    ensures forall p <- Parsed(ids) :: Aligned(p)
  {
    forall i | 0 <= i < |ids|
      ensures Aligned(Parsed(ids)[i])
    {
      assert ids[i] in ids;
    }
  }

  lemma ParsedSteps(ids: seq<string>, i: nat)
    requires Readable(ids) && i < |ids|
    ensures var p := Parsed(ids)[i];
            Parse(ids[i]) == Some(p) && Aligned(p) && Parsed(ids)[..i + 1] == Parsed(ids)[..i] + [p]
              && ids[..i + 1] == ids[..i] + [ids[i]]
  {
    assert ids[i] in ids;
  }

  lemma ParsedForward(ids: seq<string>, i: nat)
    requires Readable(ids) && i < |ids|
    ensures Parse(ids[i]) == Some(Parsed(ids)[i]) && Parsed(ids)[i].first <= Parsed(ids)[i].last
    ensures Parsed(ids)[..i + 1] == Parsed(ids)[..i] + [Parsed(ids)[i]]
  {
    ParsedSteps(ids, i);
  }

  lemma MonthsStep(ids: seq<string>, finals: seq<Period>, i: nat)
    requires |ids| == |finals| && i < |finals|
    ensures var f, l, p := FirstMonth(finals[..i]), LastMonth(finals[..i]), finals[i];
            && FirstMonth(finals[..i + 1]) == (if f < 0 || p.first < f then p.first else f)
            && LastMonth(finals[..i + 1]) == (if p.last > l then p.last else l)
            && LastId(ids[..i + 1], finals[..i + 1]) == if p.last > l then ids[i] else LastId(ids[..i], finals[..i])
  {
    assert finals[..i + 1][..i] == finals[..i] && ids[..i + 1][..i] == ids[..i];
  }

  /** The first and last month of the final periods, the first identifier that ends last, and the months billed. */
  method Collect(ids: seq<string>) returns (first: int, last: int, lastId: string, covered: set<int>)
    requires Readable(ids)
    ensures Found(ids, Parsed(ids), first, last, lastId)
    ensures AreMonths(covered, Parsed(ids))
  {
    first, last, lastId, covered := -1, -1, "", {};
    ghost var finals := Parsed(ids);
    for i := 0 to |ids|
      invariant first == FirstMonth(finals[..i]) && last == LastMonth(finals[..i]) && lastId == LastId(ids[..i], finals[..i])
      invariant AreMonths(covered, finals[..i])
    {
      ParsedForward(ids, i);
      MonthsStep(ids, finals, i);
      var p := Parse(ids[i]).value;
      if p.last > last {
        last, lastId := p.last, ids[i];
      }
      if first < 0 || p.first < first {
        first := p.first;
      }
      covered := CoverMonths(covered, p, finals[..i]);
    }
    assert finals[..|finals|] == finals && ids[..|ids|] == ids;
    FoundParsed(ids);
  }

  lemma FoundParsed(ids: seq<string>)
    requires Readable(ids)
    ensures Found(ids, Parsed(ids), FirstMonth(Parsed(ids)), LastMonth(Parsed(ids)), LastId(ids, Parsed(ids)))
  {
    ParsedAligned(ids);
    FoundByLoop(ids, Parsed(ids));
  }

  lemma GapsMeanUnbilled(finals: seq<Period>, covered: set<int>, f: int, l: int, recent: seq<(int, int)>)
    requires AreMonths(covered, finals)
    requires AreGaps(covered, Max(f, l - GAP_WINDOW + 1), l, recent)
    ensures recent == [] <==> NoRecentGap(finals, f, l)
  {
    if recent != [] {
      assert InGap(recent, recent[0].0);
    }
  }

  lemma AnyRun(running: seq<string>)
    requires Readable(running)
    ensures NoneFrom(Parsed(running), 0) <==> running == []
    ensures forall p :: FirstFrom(Parsed(running), 0, p) ==> running != [] && p == Parsed(running)[0]
  {
    if running != [] {
      ParsedSteps(running, 0);
      assert Parsed(running)[0] in Parsed(running);
      forall i | 0 < i <= |running|
        ensures !NoneFrom(Parsed(running)[..i], 0)
      {
        assert Parsed(running)[..i][0] == Parsed(running)[0] && Parsed(running)[..i][0] in Parsed(running)[..i];
      }
    }
  }

  lemma NextStartAfter(interval: Interval, start: int)
    requires 0 <= start && start % Months(interval) != 0
    ensures NextStart(interval, start, (start / Months(interval) + 1) * Months(interval))
  {
    NextOf3(start);
    NextOf6(start);
    NextOf12(start);
  }

  lemma NextOf3(start: int)
    ensures (start / 3 + 1) * 3 % 3 == 0 && start < (start / 3 + 1) * 3 && (start % 3 != 0 ==> (start / 3 + 1) * 3 < start + 3)
  {
  }

  lemma NextOf6(start: int)
    ensures (start / 6 + 1) * 6 % 6 == 0 && start < (start / 6 + 1) * 6 && (start % 6 != 0 ==> (start / 6 + 1) * 6 < start + 6)
  {
  }

  lemma NextOf12(start: int)
    ensures (start / 12 + 1) * 12 % 12 == 0 && start < (start / 12 + 1) * 12
    ensures start % 12 != 0 ==> (start / 12 + 1) * 12 < start + 12
  {
  }

  /** The rule once something is billed. */
  method Apply(interval: Interval, ghost finals: seq<Period>, covered: set<int>, first: int, last: int, lastId: string,
               running: seq<string>)
    returns (d: Decision)
    requires 0 <= first <= last && Readable(running) && AreMonths(covered, finals)
    ensures d.lastFinal == Some(lastId) && Answers(interval, finals, Parsed(running), covered, first, last, d)
  {
    var start, length := last + 1, Months(interval);
    var gaps := Uncovered(covered, first, last);
    var recent, older := SplitGaps(covered, first, last, gaps, last - GAP_WINDOW + 1);
    GapsMeanUnbilled(finals, covered, first, last, recent);
    if |recent| > 0 {
      return Decision(false, None, Some(lastId), None, NotBilled(recent));
    }
    if start % length != 0 {
      NextStartAfter(interval, start);
      BlockedRangeInOneYear(interval, start, (start / length + 1) * length);
      var earliest := (start / length + 1) * length;
      return Decision(false, None, Some(lastId), Some(earliest), FirstToBoundary(start, earliest - 1));
    }
    var p := RunningFrom(running, start);
    if p.Some? {
      return Decision(false, None, Some(lastId), None, StillRunning(p.value));
    }
    d := Decision(true, Some(start), Some(lastId), None, AppliesFrom(older));
  }

  lemma RuleOf(interval: Interval, finals: seq<Period>, runs: seq<Period>, f: int, l: int)
    requires Spans(finals, f, l)
    ensures MayChange(interval, finals, runs) <==> MayChangeAt(interval, finals, runs, f, l)
  {
    OneSpan(finals, f, l);
  }

  lemma AnswersAreTheRule(interval: Interval, finals: seq<Period>, runs: seq<Period>, covered: set<int>, f: int, l: int,
                          d: Decision)
    requires AreMonths(covered, finals)
    requires Answers(interval, finals, runs, covered, f, l, d)
    ensures d.allowed <==> MayChangeAt(interval, finals, runs, f, l)
  {
    match d.message
    case NotBilled(gaps) => GapsMeanUnbilled(finals, covered, f, l, gaps);
    case StillRunning(p) => FirstFromRuns(runs, l + 1, p);
    case FirstToBoundary(first, last) => NotAStart(interval, l + 1, last + 1);
    case AppliesFrom(older) =>
  }

  lemma NotAStart(interval: Interval, start: int, e: int)
    requires NextStart(interval, start, e)
    ensures start % Months(interval) != 0
  {
    match interval
    case Monthly =>
    case Quarter => Between3(start, e);
    case Biannual => Between6(start, e);
    case Annual => Between12(start, e);
  }

  lemma Between3(x: int, y: int)
    requires y % 3 == 0 && x < y < x + 3
    ensures x % 3 != 0
  {
  }

  lemma Between6(x: int, y: int)
    requires y % 6 == 0 && x < y < x + 6
    ensures x % 6 != 0
  {
  }

  lemma Between12(x: int, y: int)
    requires y % 12 == 0 && x < y < x + 12
    ensures x % 12 != 0
  {
  }

  lemma FirstFromRuns(runs: seq<Period>, start: int, p: Period)
    requires FirstFrom(runs, start, p)
    ensures !NoneFrom(runs, start)
  {
    assert p in runs;
  }

  /** The answer tells the first and last billed month, the identifier that ends last, and the reason. */
  ghost predicate Explained(interval: Interval, final: seq<string>, runs: seq<Period>, d: Decision)
    requires Readable(final)
  {
    exists f, l, covered, id {:trigger Answers(interval, Parsed(final), runs, covered, f, l, d),
      EndsLast(final, Parsed(final), id, l)} ::
      && Spans(Parsed(final), f, l) && EndsLast(final, Parsed(final), id, l) && d.lastFinal == Some(id)
      && AreMonths(covered, Parsed(final))
      && Answers(interval, Parsed(final), runs, covered, f, l, d)
  }

  /** DecideSettlementInterval, on identifiers that can be read. */
  method Decide(interval: Interval, final: seq<string>, running: seq<string>) returns (d: Decision)
    requires Readable(final) && Readable(running)
    ensures d.allowed <==> MayChange(interval, Parsed(final), Parsed(running))
    ensures final == [] ==> d == if running == [] then Decision(true, None, None, None, AtOnce)
                                 else Decision(false, None, None, None, StillRunning(Parsed(running)[0]))
    ensures final != [] ==> Explained(interval, final, Parsed(running), d)
  {
    var first, last, lastId, covered := Collect(final);
    if last < 0 {
      var p := RunningFrom(running, 0);
      AnyRun(running);
      if p.Some? {
        return Decision(false, None, None, None, StillRunning(p.value));
      }
      return Decision(true, None, None, None, AtOnce);
    }
    SpanOrdered(final, first, last);
    d := Apply(interval, Parsed(final), covered, first, last, lastId, running);
    AnswersAreTheRule(interval, Parsed(final), Parsed(running), covered, first, last, d);
    RuleOf(interval, Parsed(final), Parsed(running), first, last);
  }

  lemma SpanOrdered(ids: seq<string>, f: int, l: int)
    requires Readable(ids) && Spans(Parsed(ids), f, l)
    ensures f <= l
  {
    var p :| p in Parsed(ids) && p.first == f;
    var i :| 0 <= i < |ids| && Parsed(ids)[i] == p;
    ParsedSteps(ids, i);
  }

  lemma OneSpan(finals: seq<Period>, f: int, l: int)
    requires Spans(finals, f, l)
    ensures forall f', l' :: Spans(finals, f', l') ==> f' == f && l' == l
  {
  }

  // ----- the rule and the identifiers in numbers

  /** A period of the interval starts in the month: in any, in January, April, July or October, in January or July, in
      January. */
  predicate StartsIn(interval: Interval, month: int) {
    match interval
    case Monthly => true
    case Quarter => month % 12 in {0, 3, 6, 9}
    case Biannual => month % 12 in {0, 6}
    case Annual => month % 12 == 0
  }

  lemma StartsInMonths(interval: Interval, month: int)
    ensures month % Months(interval) == 0 <==> StartsIn(interval, month)
  {
    match interval
    case Monthly =>
    case Quarter => assert month % 12 == month - 12 * (month / 12);
    case Biannual => assert month % 12 == month - 12 * (month / 12);
    case Annual =>
  }

  /** With a final period: the last one ends before a period of the interval starts, each month of the last year that lies
      in or after the first is final, and nothing runs later. Without one: nothing runs. */
  lemma RuleInNumbers(interval: Interval, finals: seq<Period>, runs: seq<Period>, f: int, l: int)
    requires finals == [] || Spans(finals, f, l)
    ensures MayChange(interval, finals, runs) <==>
            if finals == [] then runs == []
            else
              && StartsIn(interval, l + 1) && (forall p <- runs :: p.last <= l)
              && forall m :: f <= m && l - 12 < m <= l ==> Covers(finals, m)
  {
    if finals != [] {
      RuleOf(interval, finals, runs, f, l);
      StartsInMonths(interval, l + 1);
      assert NoneFrom(runs, l + 1) <==> forall p <- runs :: p.last <= l;
    }
  }

  /** The named start is the next month in which a period of the interval starts. */
  lemma NextStartInNumbers(interval: Interval, start: int, e: int, m: int)
    requires NextStart(interval, start, e) && start < m < e
    ensures StartsIn(interval, e) && !StartsIn(interval, m)
  {
    StartsInMonths(interval, e);
    StartsInMonths(interval, m);
    NotAStart(interval, m, e);
  }

  /** Which identifiers name a year, its halves, its quarters and its months. */
  lemma IdentifiersOfYear(year: string, number: string)
    requires |year| == 4 && Digits(year) && 1 <= |number| <= 2 && Digits(number)
    ensures Parse("Abr_Y-" + year) == InCalendar(Year, Number(year), 0)
    ensures Parse("Abr_YH-" + year + "-" + number) == InCalendar(HalfYear, Number(year), Number(number))
    ensures Parse("Abr_YQ-" + year + "-" + number) == InCalendar(QuarterYear, Number(year), Number(number))
    ensures Parse("Abr_YM-" + year + "-" + number) == InCalendar(Month, Number(year), Number(number))
  {
    KindTexts(year, number);
    IdentifierParses("Abr_Y-" + year, Year, year, "");
    ParseParts(HalfYear, year, number);
    ParseParts(QuarterYear, year, number);
    ParseParts(Month, year, number);
  }

  /** The months of a year, a half, a quarter and a month, which begin with the year or after so many of their kind. */
  lemma PeriodsInNumbers(year: int, index: int)
    ensures PeriodOf(Year, year, 1) == Period(Year, 12 * year, 12 * year + 11)
    ensures PeriodOf(HalfYear, year, index) == Period(HalfYear, 12 * year + 6 * index - 6, 12 * year + 6 * index - 1)
    ensures PeriodOf(QuarterYear, year, index) == Period(QuarterYear, 12 * year + 3 * index - 3, 12 * year + 3 * index - 1)
    ensures PeriodOf(Month, year, index) == Period(Month, 12 * year + index - 1, 12 * year + index - 1)
  {
  }

  lemma KindTexts(year: string, number: string)
    ensures "Abr_Y-" + year == "Abr_" + KindText(Year) + year + NumberText("")
    ensures "Abr_YH-" + year + "-" + number == "Abr_" + KindText(HalfYear) + year + "-" + number
    ensures "Abr_YQ-" + year + "-" + number == "Abr_" + KindText(QuarterYear) + year + "-" + number
    ensures "Abr_YM-" + year + "-" + number == "Abr_" + KindText(Month) + year + "-" + number
  {
    assert "Abr_" + KindText(Year) == "Abr_Y-" && "Abr_" + KindText(HalfYear) == "Abr_YH-";
    assert "Abr_" + KindText(QuarterYear) == "Abr_YQ-" && "Abr_" + KindText(Month) == "Abr_YM-";
    assert "Abr_Y-" + year + "" == "Abr_Y-" + year;
  }

  // ----- what the rule is for

  function KindOf(i: Interval): (k: Kind)
    ensures KindMonths(k) == Months(i)
  {
    match i case Monthly => Month case Quarter => QuarterYear case Biannual => HalfYear case Annual => Year
  }

  /** Period `k` of the new interval from month `s` on. */
  function NewPeriod(interval: Interval, s: int, k: int): Period {
    Period(KindOf(interval), s + k * Months(interval), s + (k + 1) * Months(interval) - 1)
  }

  /** Month `m` is in period `k` of the new interval. */
  predicate InNewPeriod(interval: Interval, s: int, k: int, m: int) {
    NewPeriod(interval, s, k).first <= m <= NewPeriod(interval, s, k).last
  }

  /** From an allowed change on, the periods of the new interval are periods of the calendar. */
  lemma NewPeriodsAreAligned(interval: Interval, finals: seq<Period>, runs: seq<Period>, f: int, l: int, k: nat)
    requires Spans(finals, f, l) && MayChange(interval, finals, runs) && MIN_YEAR * 12 <= l
    requires NewPeriod(interval, l + 1, k).last < (MAX_YEAR + 1) * 12
    ensures Aligned(NewPeriod(interval, l + 1, k))
  {
    PlusMultiple(l + 1, k, Months(interval));
  }

  lemma PlusMultiple(x: int, k: nat, n: int)
    requires n in {1, 3, 6, 12} && x % n == 0
    ensures (x + k * n) % n == 0 && x <= x + k * n
  {
    var q := x / n;
    if n == 3 {
      assert x + k * n == 3 * (q + k);
      Multiple(q + k, 3);
    } else if n == 6 {
      assert x + k * n == 6 * (q + k);
      Multiple(q + k, 6);
    } else if n == 12 {
      assert x + k * n == 12 * (q + k);
      Multiple(q + k, 12);
    }
  }

  /** They hold every later month exactly once, and no final or running period reaches into any of them. */
  lemma NewPeriodsTile(interval: Interval, finals: seq<Period>, runs: seq<Period>, f: int, s: int, m: int) returns (k: nat)
    requires Spans(finals, f, s - 1) && MayChange(interval, finals, runs) && s <= m
    ensures InNewPeriod(interval, s, k, m) && forall j :: InNewPeriod(interval, s, j, m) ==> j == k
    ensures !Covers(finals, m) && !Covers(runs, m) && forall p <- finals + runs :: p.last < s
  {
    assert forall p <- finals + runs :: p in finals || p in runs;
    k := (m - s) / Months(interval);
    match interval
    case Monthly =>
    case Quarter =>
    case Biannual =>
    case Annual =>
  }

  /** The periods lie in first..last and cover it. */
  predicate BillsExactly(billed: seq<Period>, first: int, last: int) {
    (forall p <- billed :: first <= p.first && p.last <= last) && forall m :: first <= m <= last ==> Covers(billed, m)
  }

  lemma CoversMore(a: seq<Period>, b: seq<Period>, m: int)
    ensures Covers(a + b, m) <==> Covers(a, m) || Covers(b, m)
  {
    assert forall p <- a :: p in a + b;
    assert forall p <- b :: p in a + b;
  }

  /** The months still to be billed first lie in one year. */
  lemma BlockedRangeInOneYear(interval: Interval, start: int, e: int)
    requires 0 <= start && NextStart(interval, start, e)
    ensures start / 12 == (e - 1) / 12
  {
    match interval
    case Monthly =>
    case Quarter => NextInYear(start, e, 3);
    case Biannual => NextInYear(start, e, 6);
    case Annual => NextInYear(start, e, 12);
  }

  lemma NextInYear(start: int, e: int, n: int)
    requires n in {3, 6, 12} && e % n == 0 && start < e < start + n
    ensures start / 12 == (e - 1) / 12
  {
    if n == 3 {
      assert e == 3 * (e / 3);
    } else if n == 6 {
      assert e == 6 * (e / 6);
    }
  }

  /** When the next start `e` is named, billing exactly up to it makes the next decision allow the change from `e`. */
  lemma EarliestIsReached(interval: Interval, finals: seq<Period>, f: int, l: int, e: int, billed: seq<Period>, runs: seq<Period>)
    requires Spans(finals, f, l) && 0 <= f <= l && NoRecentGap(finals, f, l) && NextStart(interval, l + 1, e)
    requires (forall p <- billed :: p.first <= p.last) && BillsExactly(billed, l + 1, e - 1) && NoneFrom(runs, e)
    ensures Spans(finals + billed, f, e - 1) && MayChange(interval, finals + billed, runs)
  {
    var all := finals + billed;
    assert forall p <- finals :: p in all;
    assert forall p <- billed :: p in all;
    assert Covers(billed, e - 1);
    assert Spans(all, f, e - 1);
    OneSpan(all, f, e - 1);
    forall m | Max(f, e - 1 - GAP_WINDOW + 1) <= m <= e - 1
      ensures Covers(all, m)
    {
      CoversMore(finals, billed, m);
    }
  }

  /** No final periods that end later, but before `e`, make the change possible. */
  lemma EarliestIsEarliest(interval: Interval, l: int, e: int, later: seq<Period>, f': int, l': int, runs: seq<Period>)
    requires 0 <= l && (l + 1) % Months(interval) != 0 && NextStart(interval, l + 1, e)
    requires Spans(later, f', l') && l <= l' && MayChange(interval, later, runs)
    ensures e <= l' + 1
  {
    RuleOf(interval, later, runs, f', l');
    NextIsLeast(interval, l + 1, e, l' + 1);
  }

  lemma NextIsLeast(interval: Interval, start: int, e: int, x: int)
    requires NextStart(interval, start, e) && start <= x && start % Months(interval) != 0 && x % Months(interval) == 0
    ensures e <= x
  {
    if x < e {
      NotAStart(interval, x, e);
    }
  }

  /** The old interval leads there: its periods from the last billed one on end exactly before `e`. */
  lemma OldPeriodsReachEarliest(interval: Interval, last: Period, e: int)
    requires Aligned(last) && (last.last + 1) % Months(interval) != 0 && NextStart(interval, last.last + 1, e)
    ensures (e - (last.last + 1)) % KindMonths(last.kind) == 0
  {
    var start, k, n := last.last + 1, KindMonths(last.kind), Months(interval);
    StartAligned(last);
    if n % k == 0 {
      MultipleOf(e, n, k);
      DifferenceOf(e, start, k);
    } else {
      assert k % n == 0;
      MultipleOf(start, k, n);
    }
  }

  lemma StartAligned(p: Period)
    requires Aligned(p)
    ensures (p.last + 1) % KindMonths(p.kind) == 0
  {
  }

  lemma DifferenceOf(x: int, y: int, k: int)
    requires k in {1, 3, 6, 12} && x % k == 0 && y % k == 0
    ensures (x - y) % k == 0
  {
    var a, b := x / k, y / k;
    if k == 3 {
      Multiple(a - b, 3);
    } else if k == 6 {
      Multiple(a - b, 6);
    } else if k == 12 {
      Multiple(a - b, 12);
    }
  }

  lemma Multiple(q: int, k: int)
    requires k in {1, 3, 6, 12}
    ensures (k * q) % k == 0
  {
    if k == 3 {
      assert (3 * q) % 3 == 0;
    } else if k == 6 {
      assert (6 * q) % 6 == 0;
    } else if k == 12 {
      assert (12 * q) % 12 == 0;
    }
  }

  lemma MultipleOf(x: int, n: int, k: int)
    requires n in {1, 3, 6, 12} && k in {1, 3, 6, 12} && n % k == 0 && x % n == 0
    ensures x % k == 0
  {
    if n == 12 && k == 6 {
      assert x == 6 * (2 * (x / 12));
    } else if n == 12 && k == 3 {
      assert x == 3 * (4 * (x / 12));
    } else if n == 6 && k == 3 {
      assert x == 3 * (2 * (x / 6));
    }
  }
}
