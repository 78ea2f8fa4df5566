/** Cron schedules of services: parsing, and rendering for launchd and systemd. */
module Crons {
  import opened Text

  const U32_MAX: nat := 0xffff_ffff
  const U64_MAX: nat := 0xffff_ffff_ffff_ffff
  const MAX_CRON_COMBINATIONS: nat := 4096

  datatype CronKind = Minute | Hour | Day | Month | Weekday {
    function Min(): nat {
      match this
      case Minute => 0
      case Hour => 0
      case Day => 1
      case Month => 1
      case Weekday => 0
    }

    function Max(): nat {
      match this
      case Minute => 59
      case Hour => 23
      case Day => 31
      case Month => 12
      case Weekday => 7
    }

    predicate SystemdPadded() {
      Minute? || Hour?
    }
  }

  datatype CronField = Any | Values(values: seq<nat>)

  datatype Cron = Cron(minute: CronField, hour: CronField, day: CronField, month: CronField, weekday: CronField) {
    function Field(kind: CronKind): CronField {
      match kind
      case Minute => minute
      case Hour => hour
      case Day => day
      case Month => month
      case Weekday => weekday
    }
  }

  const KINDS: seq<CronKind> := [Minute, Hour, Day, Month, Weekday]

  predicate IsSpace(c: char) {
    c == ' ' || '\t' <= c <= '\r'
  }

  /** `str::split_whitespace` on ASCII text. */
  function Words(s: string): (words: seq<string>)
    ensures forall w | w in words :: w != "" && forall c | c in w :: !IsSpace(c)
  {
    if s == "" then []
    else if IsSpace(s[0]) then Words(s[1..])
    else
      var n := WordLength(s);
      assert forall c | c in s[..n] :: !IsSpace(c);
      [s[..n]] + Words(s[n..])
  }

  function WordLength(s: string): (n: nat)
    ensures n <= |s| && (forall i | 0 <= i < n :: !IsSpace(s[i])) && (n < |s| ==> IsSpace(s[n]))
  {
    if s == "" || IsSpace(s[0]) then 0 else 1 + WordLength(s[1..])
  }

  /** The ASCII white space. */
  lemma SpacesExact(c: char)
    ensures IsSpace(c) <==> c as int in {9, 10, 11, 12, 13, 32}
  {}

  predicate AllSpace(s: string) {
    forall i | 0 <= i < |s| :: IsSpace(s[i])
  }

  /** The gaps and the words in turn. */
  function Woven(gaps: seq<string>, words: seq<string>): string
    requires |gaps| == |words| + 1
  {
    if words == [] then gaps[0] else gaps[0] + words[0] + Woven(gaps[1..], words[1..])
  }

  /** The text is the words, without white space in them, with white space between any two. */
  lemma {:induction false} WordsExact(s: string) returns (gaps: seq<string>)
    ensures |gaps| == |Words(s)| + 1 && Woven(gaps, Words(s)) == s
    ensures forall i | 0 <= i < |gaps| :: AllSpace(gaps[i])
    ensures forall i | 1 <= i < |gaps| - 1 :: gaps[i] != ""
    ensures s != "" && !IsSpace(s[0]) ==> gaps[0] == ""
    decreases |s|
  {
    if s == "" {
      gaps := [""];
    } else if IsSpace(s[0]) {
      var more := WordsExact(s[1..]);
      gaps := [[s[0]] + more[0]] + more[1..];
      assert s == [s[0]] + s[1..] && gaps[1..] == more[1..];
      assert Woven(gaps, Words(s)) == [s[0]] + Woven(more, Words(s[1..]));
    } else {
      var n := WordLength(s);
      var more := WordsExact(s[n..]);
      AfterWord(s, n, more);
      gaps := [""] + more;
      assert gaps[1..] == more && s == "" + s[..n] + s[n..];
    }
  }

  /** White space follows a word, or the end. */
  lemma AfterWord(s: string, n: nat, more: seq<string>)
    requires n <= |s| && |more| == |Words(s[n..])| + 1 && Woven(more, Words(s[n..])) == s[n..]
    requires n < |s| ==> IsSpace(s[n])
    ensures |more| > 1 ==> more[0] != ""
  {
    if |more| > 1 {
      var words := Words(s[n..]);
      assert words[0] in words && words[0][0] in words[0];
      StartsWithWord(more, words);
    }
  }

  lemma StartsWithWord(gaps: seq<string>, words: seq<string>)
    requires |gaps| == |words| + 1 && words != [] && words[0] != ""
    ensures gaps[0] == "" ==> Woven(gaps, words) != "" && Woven(gaps, words)[0] == words[0][0]
  {}

  // ----- numbers -----

  /** `str::parse::<u32>`, which allows a leading plus and leading zeros. */
  function ParseU32(s: string): Option<nat> {
    var digits := if s != "" && s[0] == '+' then s[1..] else s;
    if digits != "" && AllDigits(digits) && NumeralValue(digits) <= U32_MAX then Some(NumeralValue(digits)) else None
  }

  /** Digits, with or without a plus in front of them, whose value is in bounds; nothing else is a number. */
  lemma ParseU32Exact(s: string, v: nat)
    ensures ParseU32(s) == Some(v) <==>
            exists digits | s == digits || s == "+" + digits ::
              digits != "" && AllDigits(digits) && NumeralValue(digits) == v && v <= U32_MAX
  {
    if s != "" && s[0] == '+' {
      assert s == "+" + s[1..];
      assert !AllDigits(s);
    }
  }

  /** How a value is printed, padded to two digits or not. */
  function Print(v: nat, padded: bool): (s: string)
    ensures s != "" && AllDigits(s)
  {
    (if padded && v < 10 then "0" else "") + Decimal(v)
  }

  lemma {:induction false} LeadingZero(s: string)
    requires AllDigits(s)
    ensures AllDigits("0" + s) && NumeralValue("0" + s) == NumeralValue(s)
  {
    if s != "" {
      LeadingZero(s[..|s| - 1]);
      assert ("0" + s)[..|s|] == "0" + s[..|s| - 1];
    } else {
      assert "0" + s == "0" && "0"[..0] == "";
    }
  }

  lemma PrintParses(v: nat, padded: bool)
    requires v <= U32_MAX
    ensures ParseU32(Print(v, padded)) == Some(v)
  {
    LeadingZero(Decimal(v));
    assert "" + Decimal(v) == Decimal(v);
  }

  /** Two digits if padded, and no leading zero otherwise. */
  lemma PrintExact(v: nat, padded: bool)
    requires v < 100
    ensures Print(v, padded) == if padded || v >= 10 then [DigitChar(v / 10), DigitChar(v % 10)] else [DigitChar(v)]
  {
    hide Decimal;
    FewDigits(v);
    assert DigitChar(0) == '0';
    assert "" + Decimal(v) == Decimal(v);
  }

  lemma FewDigits(v: nat)
    requires v < 100
    ensures Decimal(v) == if v >= 10 then [DigitChar(v / 10), DigitChar(v % 10)] else [DigitChar(v)]
  {
    if v >= 10 {
      assert Decimal(v / 10) == [DigitChar(v / 10)];
    }
  }

  // ----- sets in ascending order -----

  predicate Increasing(xs: seq<nat>) {
    forall i, j | 0 <= i < j < |xs| :: xs[i] < xs[j]
  }

  predicate IsMax(s: set<nat>, m: nat) {
    m in s && forall x | x in s :: x <= m
  }

  lemma MaxExists(s: set<nat>)
    requires s != {}
    ensures exists m :: IsMax(s, m)
  {
    var x :| x in s;
    var rest := s - {x};
    assert forall y | y in s :: y == x || y in rest;
    if rest == {} {
      assert IsMax(s, x);
    } else {
      MaxExists(rest);
      var m :| IsMax(rest, m);
      assert IsMax(s, if x > m then x else m);
    }
  }

  function Ascending(s: set<nat>): (xs: seq<nat>)
    ensures Increasing(xs)
    ensures forall x :: x in xs <==> x in s
  {
    if s == {} then []
    else
      MaxExists(s);
      var m :| m in s && IsMax(s, m);
      var rest := Ascending(s - {m});
      assert forall i | 0 <= i < |rest| :: rest[i] in rest;
      rest + [m]
  }

  lemma {:induction false} AscendingIsUnique(xs: seq<nat>, ys: seq<nat>)
    requires Increasing(xs) && Increasing(ys) && forall x :: x in xs <==> x in ys
    ensures xs == ys
  {
    assert |ys| > 0 ==> ys[0] in ys;
    if xs != [] {
      var m := xs[|xs| - 1];
      assert m in ys && ys[|ys| - 1] in xs;
      assert ys[|ys| - 1] == m;
      var xs', ys' := xs[..|xs| - 1], ys[..|ys| - 1];
      forall x
        ensures x in xs' <==> x in ys'
      {
        assert x in xs' <==> x in xs && x != m;
        assert x in ys' <==> x in ys && x != m;
      }
      AscendingIsUnique(xs', ys');
      assert xs == xs' + [m] && ys == ys' + [m];
    }
  }

  // ----- what a field means -----

  /** A term picks every `step`th value from `first` to `last`. */
  datatype Span = Span(first: nat, last: nat, step: nat)

  function Nth(span: Span, k: nat): nat {
    span.first + k * span.step
  }

  ghost predicate IsPicked(span: Span, v: nat) {
    v <= span.last && exists k :: v == Nth(span, k)
  }

  ghost function Picked(span: Span): set<nat> {
    set v: nat | v <= span.last && IsPicked(span, v)
  }

  /** The first value past the end, which still has to fit a machine word. */
  function Past(span: Span): nat
    requires span.step > 0 && span.first <= span.last
  {
    span.first + ((span.last - span.first) / span.step + 1) * span.step
  }

  /** `A`, `A/N`, `A-B`, `A-B/N` or a star with a step, within the bounds. */
  function ReadTerm(term: string, min: nat, max: nat): (span: Option<Span>)
    requires min <= max
    ensures span.Some? ==> span.value.step > 0 && min <= span.value.first <= span.value.last <= max
  {
    var slash := SplitOnce(term, '/');
    var base := if slash.Some? then slash.value.0 else term;
    var step := if slash.Some? then ParseU32(slash.value.1) else Some(1);
    if step.None? || step.value == 0 then None
    else if base == "*" then if slash.Some? then Some(Span(min, max, step.value)) else None
    else
      var dash := SplitOnce(base, '-');
      if dash.Some? then
        var start, end := ParseU32(dash.value.0), ParseU32(dash.value.1);
        if start.None? || end.None? || start.value > end.value || start.value < min || end.value > max then None
        else Some(Span(start.value, end.value, step.value))
      else
        var single := ParseU32(base);
        if single.None? || single.value < min || single.value > max then None
        else Some(Span(single.value, if slash.Some? then max else single.value, step.value))
  }

  ghost function TermValues(term: string, min: nat, max: nat): Option<set<nat>>
    requires min <= max
  {
    var span := ReadTerm(term, min, max);
    if span.Some? && Past(span.value) <= U32_MAX then Some(Picked(span.value)) else None
  }

  /** All terms of a list have to be right. */
  ghost function ListValues(terms: seq<string>, min: nat, max: nat): Option<set<nat>>
    requires min <= max
  {
    if terms == [] then Some({})
    else
      var before, last := ListValues(terms[..|terms| - 1], min, max), TermValues(terms[|terms| - 1], min, max);
      if before.Some? && last.Some? then Some(before.value + last.value) else None
  }

  /** What a field denotes: anything, or the values its terms pick, in canonical form. */
  ghost function FieldOf(kind: CronKind, token: string): Option<CronField> {
    if token == "*" then Some(Any)
    else
      var values := ListValues(Split(token, ','), kind.Min(), kind.Max());
      if values.Some? then Some(Values(Ascending(values.value))) else None
  }

  predicate CanonicalField(kind: CronKind, field: CronField) {
    field.Values? ==>
      && field.values != [] && Increasing(field.values)
      && forall v | v in field.values :: kind.Min() <= v <= kind.Max()
  }

  predicate Canonical(cron: Cron) {
    forall kind :: CanonicalField(kind, cron.Field(kind))
  }

  lemma TermInBounds(term: string, min: nat, max: nat)
    requires min <= max && TermValues(term, min, max).Some?
    ensures TermValues(term, min, max).value != {}
    ensures forall v | v in TermValues(term, min, max).value :: min <= v <= max
  {
    hide ReadTerm;
    var span := ReadTerm(term, min, max).value;
    assert span.first == Nth(span, 0);
    assert span.first in Picked(span);
  }

  lemma {:induction false} ListInBounds(terms: seq<string>, min: nat, max: nat)
    requires min <= max && ListValues(terms, min, max).Some?
    ensures forall v | v in ListValues(terms, min, max).value :: min <= v <= max
    ensures terms != [] ==> ListValues(terms, min, max).value != {}
  {
    hide TermValues;
    if terms != [] {
      ListInBounds(terms[..|terms| - 1], min, max);
      TermInBounds(terms[|terms| - 1], min, max);
    }
  }

  /** Every accepted field is in order, without duplicates, nonempty and within its bounds. */
  lemma FieldIsCanonical(kind: CronKind, token: string)
    requires FieldOf(kind, token).Some?
    ensures CanonicalField(kind, FieldOf(kind, token).value)
  {
    if token != "*" {
      var values := ListValues(Split(token, ','), kind.Min(), kind.Max()).value;
      ListInBounds(Split(token, ','), kind.Min(), kind.Max());
      var v :| v in values;
      assert v in Ascending(values);
    }
  }

  // ----- printing and parsing again -----

  function Printed(values: seq<nat>, padded: bool): (parts: seq<string>)
    ensures |parts| == |values| && forall i | 0 <= i < |values| :: parts[i] == Print(values[i], padded)
  {
    if values == [] then [] else Printed(values[..|values| - 1], padded) + [Print(values[|values| - 1], padded)]
  }

  function SystemdField(kind: CronKind, field: CronField): string
    requires CanonicalField(kind, field)
  {
    if field.Any? then "*" else Join(Printed(field.values, kind.SystemdPadded()), ',')
  }

  lemma PrintedTerm(v: nat, padded: bool, min: nat, max: nat)
    requires min <= v <= max < U32_MAX
    ensures TermValues(Print(v, padded), min, max) == Some({v})
  {
    hide Print, ParseU32;
    var s := Print(v, padded);
    PrintParses(v, padded);
    assert forall c | c in s :: IsDigit(c);
    assert s[0] in s;
    assert ReadTerm(s, min, max) == Some(Span(v, v, 1));
    JustOne(v);
  }

  function SetOf(values: seq<nat>): (all: set<nat>)
    ensures forall v :: v in all <==> v in values
  {
    set v: nat | v in values
  }

  lemma {:induction false} PrintedList(values: seq<nat>, padded: bool, min: nat, max: nat)
    requires min <= max < U32_MAX && forall i | 0 <= i < |values| :: min <= values[i] <= max
    ensures ListValues(Printed(values, padded), min, max) == Some(SetOf(values))
  {
    hide Print, TermValues, SetOf;
    if values == [] {
      assert SetOf(values) == {};
    } else {
      var last := |values| - 1;
      var parts := Printed(values, padded);
      assert parts[..last] == Printed(values[..last], padded);
      PrintedList(values[..last], padded, min, max);
      PrintedTerm(values[last], padded, min, max);
      assert SetOf(values) == SetOf(values[..last]) + {values[last]} by {
        assert values == values[..last] + [values[last]];
      }
    }
  }

  lemma JoinedNotStar(parts: seq<string>)
    requires parts != [] && parts[0] != "" && AllDigits(parts[0])
    ensures Join(parts, ',') != "*"
  {
    assert IsDigit(Join(parts, ',')[0]);
  }

  lemma NoCommaIn(s: string)
    requires AllDigits(s)
    ensures ',' !in s
  {}

  /** A canonical field survives printing for systemd and parsing again, padding and star included. */
  lemma PrintParseRoundTrip(kind: CronKind, field: CronField)
    requires CanonicalField(kind, field)
    ensures FieldOf(kind, SystemdField(kind, field)) == Some(field)
  {
    hide Print, ListValues, Split, Join, Printed;
    if field.Values? {
      var parts := Printed(field.values, kind.SystemdPadded());
      forall i | 0 <= i < |parts|
        ensures ',' !in parts[i]
      {
        NoCommaIn(parts[i]);
      }
      JoinedNotStar(parts);
      SplitJoin(parts, ',');
      assert forall i | 0 <= i < |field.values| :: field.values[i] in field.values;
      PrintedList(field.values, kind.SystemdPadded(), kind.Min(), kind.Max());
      var all := SetOf(field.values);
      AscendingIsUnique(Ascending(all), field.values);
      var token := SystemdField(kind, field);
      assert token == Join(parts, ',') && Split(token, ',') == parts;
      assert ListValues(Split(token, ','), kind.Min(), kind.Max()) == Some(all);
    }
  }

  // ----- the grammar of terms -----

  /** A base, with or without a step. */
  datatype Base = Star | At(value: nat) | Range(from: nat, end: nat)

  datatype Term = Term(base: Base, step: Option<nat>)

  function BaseText(base: Base): string {
    match base
    case Star => "*"
    case At(v) => Decimal(v)
    case Range(a, b) => Decimal(a) + ['-'] + Decimal(b)
  }

  function TermText(term: Term): string {
    if term.step.None? then BaseText(term.base) else BaseText(term.base) + ['/'] + Decimal(term.step.value)
  }

  predicate InMachine(term: Term) {
    && (term.step.Some? ==> term.step.value <= U32_MAX)
    && match term.base
       case Star => true
       case At(v) => v <= U32_MAX
       case Range(a, b) => a <= U32_MAX && b <= U32_MAX
  }

  /** A star needs a step, a step is positive, values are within bounds and ranges ascend. */
  predicate Sensible(term: Term, min: nat, max: nat) {
    && (if term.step.Some? then term.step.value > 0 else !term.base.Star?)
    && match term.base
       case Star => true
       case At(v) => min <= v <= max
       case Range(a, b) => min <= a <= b <= max
  }

  /** A star runs over the bounds, a range over itself, and a single value with a step up to the upper bound. */
  function SpanOf(term: Term, min: nat, max: nat): Span {
    var step := if term.step.Some? then term.step.value else 1;
    match term.base
    case Star => Span(min, max, step)
    case At(v) => Span(v, if term.step.Some? then max else v, step)
    case Range(a, b) => Span(a, b, step)
  }

  lemma DigitsOnly(n: nat, c: char)
    requires !IsDigit(c)
    ensures c !in Decimal(n)
  {}

  lemma JoinedLacks(s: string, t: string, c: char)
    requires c !in s && c !in t
    ensures c !in s + t
  {}

  lemma BaseHasNoSlash(base: Base)
    ensures '/' !in BaseText(base)
  {
    match base
    case Star =>
    case At(v) => DigitsOnly(v, '/');
    case Range(a, b) =>
      DigitsOnly(a, '/');
      DigitsOnly(b, '/');
      JoinedLacks(Decimal(a), ['-'], '/');
      JoinedLacks(Decimal(a) + ['-'], Decimal(b), '/');
  }

  lemma DecimalParses(n: nat)
    requires n <= U32_MAX
    ensures ParseU32(Decimal(n)) == Some(n) && Decimal(n) != "*"
  {
    assert "" + Decimal(n) == Decimal(n);
    PrintParses(n, false);
    assert IsDigit(Decimal(n)[0]);
  }

  /** The text of a term is cut into its base and its step. */
  lemma StepIsCut(term: Term)
    requires InMachine(term)
    ensures SplitOnce(TermText(term), '/')
         == if term.step.None? then None else Some((BaseText(term.base), Decimal(term.step.value)))
  {
    BaseHasNoSlash(term.base);
    if term.step.Some? {
      CutJoined(BaseText(term.base), Decimal(term.step.value), '/');
    }
  }

  lemma BaseIsCut(base: Base)
    ensures BaseText(base) == "*" <==> base.Star?
    ensures SplitOnce(BaseText(base), '-') == if base.Range? then Some((Decimal(base.from), Decimal(base.end))) else None
  {
    match base
    case Star =>
    case At(v) =>
      DigitsOnly(v, '-');
      assert IsDigit(Decimal(v)[0]);
    case Range(a, b) =>
      DigitsOnly(a, '-');
      CutJoined(Decimal(a), Decimal(b), '-');
      assert (Decimal(a) + ['-'] + Decimal(b))[|Decimal(a)|] == '-';
  }

  /** A written term is read exactly if it is sensible, and then as what it means. */
  lemma TermIsRead(term: Term, min: nat, max: nat)
    requires InMachine(term) && min <= max
    ensures ReadTerm(TermText(term), min, max) == if Sensible(term, min, max) then Some(SpanOf(term, min, max)) else None
  {
    hide BaseText, TermText, ParseU32, SplitOnce;
    StepIsCut(term);
    BaseIsCut(term.base);
    WholeText(term);
    if term.step.Some? {
      DecimalParses(term.step.value);
    }
    match term.base
    case Star =>
    case At(v) => DecimalParses(v);
    case Range(a, b) =>
      DecimalParses(a);
      DecimalParses(b);
  }

  /** The numbers of each field: sixty minutes, twenty-four hours, and so on; a week may end in a second Sunday. */
  predicate InField(kind: CronKind, v: nat) {
    match kind
    case Minute => v < 60
    case Hour => v < 24
    case Day => 1 <= v <= 31
    case Month => 1 <= v <= 12
    case Weekday => v <= 7
  }

  /** A field of one number is accepted exactly if there is such a minute, hour, day, month or weekday. */
  lemma OneNumberField(kind: CronKind, v: nat)
    requires v < U32_MAX
    ensures FieldOf(kind, Decimal(v)).Some? <==> InField(kind, v)
  {
    hide ReadTerm, ParseU32, BaseText, TermText;
    var term := Term(At(v), None);
    var text := Decimal(v);
    WholeText(term);
    TermIsRead(term, kind.Min(), kind.Max());
    NoCommaIn(text);
    assert IsDigit(text[0]);
    var terms := [text];
    assert Split(text, ',') == terms && terms[..|terms| - 1] == [];
    assert ListValues(terms[..|terms| - 1], kind.Min(), kind.Max()).Some?;
  }

  lemma WholeText(term: Term)
    ensures term.step.None? ==> TermText(term) == BaseText(term.base)
    ensures term.base.At? ==> BaseText(term.base) == Decimal(term.base.value)
  {}

  // ----- parsing step by step -----

  lemma AtLeastOnce(n: int, step: nat)
    requires n >= 1
    ensures n * step >= step
  {}

  lemma NthOrder(span: Span, j: nat, k: nat)
    ensures j < k ==> Nth(span, j) + span.step <= Nth(span, k)
  {
    if j < k {
      AtLeastOnce(k - j, span.step);
      assert (k - j) * span.step == k * span.step - j * span.step;
    }
  }

  lemma NthNext(span: Span, k: nat)
    ensures Nth(span, k + 1) == Nth(span, k) + span.step
  {}

  /** Up to the `k`th step the values picked are the ones stepped on. */
  lemma PickedStep(span: Span, k: nat, v: nat)
    requires span.step > 0 && Nth(span, k) <= span.last
    ensures IsPicked(span, v) && v < Nth(span, k + 1) <==> (IsPicked(span, v) && v < Nth(span, k)) || v == Nth(span, k)
  {
    hide Nth;
    NthNext(span, k);
    forall j: nat
      ensures Nth(span, j) <= Nth(span, k) || Nth(span, j) >= Nth(span, k + 1)
    {
      NthOrder(span, j, k);
      NthOrder(span, k + 1, j);
    }
  }

  /** The first value past the end is the one whose predecessor still was within. */
  lemma PastBracket(span: Span) returns (q: nat)
    requires span.step > 0 && span.first <= span.last
    ensures Nth(span, q) <= span.last < Nth(span, q + 1) == Past(span)
  {
    q := (span.last - span.first) / span.step;
    assert span.last - span.first == q * span.step + (span.last - span.first) % span.step;
  }

  lemma PastAt(span: Span, k: nat)
    requires span.step > 0 && span.first <= span.last
    ensures Nth(span, k) <= span.last ==> Past(span) >= Nth(span, k + 1)
    ensures k > 0 && Nth(span, k - 1) <= span.last < Nth(span, k) ==> Past(span) == Nth(span, k)
  {
    hide Nth, Past;
    var q := PastBracket(span);
    NthOrder(span, k, q + 1);
    NthOrder(span, q + 1, k);
    NthOrder(span, k + 1, q + 1);
    NthOrder(span, k, q);
    if k > 0 {
      NthOrder(span, q + 1, k - 1);
    }
  }

  /** Pushes every `step`th value; gives up when the next one would not fit a machine word. */
  method PushCronRange(out: seq<nat>, span: Span) returns (ok: bool, pushed: seq<nat>)
    requires span.step > 0 && span.first <= span.last <= U32_MAX
    ensures ok <==> Past(span) <= U32_MAX
    ensures ok ==> pushed == out + Ascending(Picked(span))
  {
    var value := span.first;
    var more: seq<nat> := [];
    ghost var k: nat := 0;
    while value <= span.last
      invariant value == Nth(span, k) && value <= U32_MAX
      invariant k > 0 ==> Nth(span, k - 1) <= span.last
      invariant Increasing(more)
      invariant forall v: nat :: v in more <==> IsPicked(span, v) && v < value
      decreases U32_MAX + 1 - value
    {
      hide IsPicked;
      PastAt(span, k);
      StepOn(span, k, more);
      more := more + [value];
      if value + span.step > U32_MAX {
        return false, out + more;
      }
      value, k := value + span.step, k + 1;
    }
    PastAt(span, k);
    AllPicked(span, value, more);
    return true, out + more;
  }

  lemma StepOn(span: Span, k: nat, more: seq<nat>)
    requires span.step > 0 && Nth(span, k) <= span.last && Increasing(more)
    requires forall v: nat :: v in more <==> IsPicked(span, v) && v < Nth(span, k)
    ensures Nth(span, k + 1) == Nth(span, k) + span.step
    ensures Increasing(more + [Nth(span, k)])
    ensures forall v: nat :: v in more + [Nth(span, k)] <==> IsPicked(span, v) && v < Nth(span, k + 1)
  {
    hide Nth, IsPicked;
    NthNext(span, k);
    forall v: nat
      ensures v in more + [Nth(span, k)] <==> IsPicked(span, v) && v < Nth(span, k + 1)
    {
      PickedStep(span, k, v);
    }
    assert forall i | 0 <= i < |more| :: more[i] in more;
  }

  lemma AllPicked(span: Span, value: nat, more: seq<nat>)
    requires span.step > 0 && value > span.last && Increasing(more)
    requires forall v: nat :: v in more <==> IsPicked(span, v) && v < value
    ensures more == Ascending(Picked(span))
  {
    AscendingIsUnique(more, Ascending(Picked(span)));
  }

  /** A sensible term is refused exactly if one step past the last value it picks overflows the machine word. */
  lemma RefusedExactly(term: Term, min: nat, max: nat, last: nat)
    requires InMachine(term) && min <= max && Sensible(term, min, max)
    requires IsMax(Picked(SpanOf(term, min, max)), last)
    ensures TermValues(TermText(term), min, max).None? <==> last + SpanOf(term, min, max).step > U32_MAX
  {
    hide TermText, ReadTerm, Past;
    TermIsRead(term, min, max);
    LastPicked(SpanOf(term, min, max), last);
  }

  lemma LastPicked(span: Span, last: nat)
    requires span.step > 0 && span.first <= span.last && IsMax(Picked(span), last)
    ensures last + span.step == Past(span)
  {
    hide Nth, Past;
    var q := PastBracket(span);
    assert IsPicked(span, Nth(span, q)) && Nth(span, q) in Picked(span);
    var k :| last == Nth(span, k);
    NthOrder(span, q + 1, k);
    NthOrder(span, k, q);
    NthNext(span, q);
  }

  /** The minute term `1/4294967295` picks the first minute of each hour and is refused. */
  lemma HugeStepRefused()
    ensures ReadTerm("1/4294967295", Minute.Min(), Minute.Max()) == Some(Span(1, 59, U32_MAX))
    ensures Picked(Span(1, 59, U32_MAX)) == {1}
    ensures TermValues("1/4294967295", Minute.Min(), Minute.Max()).None?
    ensures FieldOf(Minute, "1/4294967295").None?
  {
    hide ReadTerm, Picked, Past, Split;
    HugeStepRead();
    HugeStepPicks();
    LastPicked(Span(1, 59, U32_MAX), 1);
    NoComma("1/4294967295");
    var list := ["1/4294967295"];
    assert list[..0] == [];
    assert ListValues(list, 0, 59).None?;
  }

  lemma NoComma(s: string)
    requires ',' !in s
    ensures Split(s, ',') == [s]
  {}

  lemma HugeStepRead()
    ensures ReadTerm("1/4294967295", 0, 59) == Some(Span(1, 59, U32_MAX))
  {
    hide NumeralValue, CutAt;
    assert "1/4294967295" == "1" + ['/'] + "4294967295";
    CutJoined("1", "4294967295", '/');
    OneNumeral();
    HugeNumeral();
    NumbersRead();
  }

  lemma NumbersRead()
    requires NumeralValue("1") == 1 && AllDigits("4294967295") && NumeralValue("4294967295") == U32_MAX
    ensures ParseU32("1") == Some(1) && ParseU32("4294967295") == Some(U32_MAX)
  {
    hide NumeralValue;
  }

  lemma HugeStepPicks()
    ensures Picked(Span(1, 59, U32_MAX)) == {1}
  {
    var span := Span(1, 59, U32_MAX);
    assert Nth(span, 0) == 1;
    forall k: nat
      ensures k > 0 ==> Nth(span, k) > 59
    {
      NthOrder(span, 0, k);
    }
  }

  lemma OneNumeral()
    ensures NumeralValue("1") == 1
  {
    assert "1"[..0] == "";
  }

  lemma NumeralStep(s: string, c: char)
    requires AllDigits(s) && IsDigit(c)
    ensures AllDigits(s + [c]) && NumeralValue(s + [c]) == 10 * NumeralValue(s) + DigitValue(c)
  {
    assert (s + [c])[..|s|] == s;
  }

  lemma FiveDigits(s: string, t: string)
    requires AllDigits(s) && AllDigits(t) && |t| == 5
    ensures AllDigits(s + t)
    ensures NumeralValue(s + t)
         == 100000 * NumeralValue(s) + 10000 * DigitValue(t[0]) + 1000 * DigitValue(t[1]) + 100 * DigitValue(t[2])
            + 10 * DigitValue(t[3]) + DigitValue(t[4])
  {
    hide NumeralValue;
    var one, two, three, four := s + [t[0]], s + [t[0]] + [t[1]], s + [t[0]] + [t[1]] + [t[2]], s + [t[0]] + [t[1]] + [t[2]] + [t[3]];
    NumeralStep(s, t[0]);
    NumeralStep(one, t[1]);
    NumeralStep(two, t[2]);
    NumeralStep(three, t[3]);
    NumeralStep(four, t[4]);
    assert s + t == four + [t[4]];
  }

  lemma HugeNumeral()
    ensures AllDigits("4294967295") && NumeralValue("4294967295") == U32_MAX
  {
    hide NumeralValue;
    NoDigits();
    FiveDigits("", "42949");
    FiveDigits("" + "42949", "67295");
    assert "" + "42949" + "67295" == "4294967295";
  }

  lemma NoDigits()
    ensures NumeralValue("") == 0
  {}

  /** Expands one term into `out`. */
  method ParseCronTerm(term: string, min: nat, max: nat, out: seq<nat>) returns (ok: bool, pushed: seq<nat>)
    requires min <= max < U32_MAX
    ensures ok <==> TermValues(term, min, max).Some?
    ensures ok ==> SetOf(pushed) == SetOf(out) + TermValues(term, min, max).value
  {
    hide SetOf, Picked, Past, Increasing;
    if term == "" {
      assert ReadTerm(term, min, max).None?;
      return false, out;
    }
    var slash := SplitOnce(term, '/');
    var base := if slash.Some? then slash.value.0 else term;
    var step := Some(1);
    if slash.Some? {
      step := ParseU32(slash.value.1);
      if step.None? || step.value == 0 {
        return false, out;
      }
    }
    var span;
    if base == "*" {
      if slash.None? {
        return false, out;
      }
      span := Span(min, max, step.value);
    } else {
      var dash := SplitOnce(base, '-');
      if dash.Some? {
        var start, end := ParseU32(dash.value.0), ParseU32(dash.value.1);
        if start.None? || end.None? || start.value > end.value || start.value < min || end.value > max {
          return false, out;
        }
        span := Span(start.value, end.value, step.value);
      } else {
        var single := ParseU32(base);
        if single.None? || single.value < min || single.value > max {
          return false, out;
        }
        if slash.None? {
          JustOne(single.value);
          Pushed(out, [single.value], {single.value});
          return true, out + [single.value];
        }
        span := Span(single.value, max, step.value);
      }
    }
    assert ReadTerm(term, min, max) == Some(span);
    ok, pushed := PushCronRange(out, span);
    if ok {
      Pushed(out, Ascending(Picked(span)), Picked(span));
    }
  }

  lemma JustOne(v: nat)
    requires v < U32_MAX
    ensures Past(Span(v, v, 1)) <= U32_MAX && Picked(Span(v, v, 1)) == {v}
  {
    assert v == Nth(Span(v, v, 1), 0);
  }

  lemma Pushed(out: seq<nat>, more: seq<nat>, all: set<nat>)
    requires forall v :: v in more <==> v in all
    ensures SetOf(out + more) == SetOf(out) + all
  {}

  /** `sort_unstable` and `dedup`. */
  function SortDedup(values: seq<nat>): seq<nat> {
    Ascending(SetOf(values))
  }

  method ParseCronField(kind: CronKind, token: string) returns (field: Option<CronField>)
    ensures field == FieldOf(kind, token)
  {
    hide TermValues, SetOf, Split;
    if token == "*" {
      return Some(Any);
    }
    var terms := Split(token, ',');
    var values: seq<nat> := [];
    assert SetOf(values) == {};
    for i := 0 to |terms|
      invariant ListValues(terms[..i], kind.Min(), kind.Max()) == Some(SetOf(values))
    {
      assert terms[..i + 1][..i] == terms[..i];
      var ok;
      ok, values := ParseCronTerm(terms[i], kind.Min(), kind.Max(), values);
      if !ok {
        ListFails(terms, i + 1, kind.Min(), kind.Max());
        return None;
      }
    }
    assert terms[..|terms|] == terms;
    return Some(Values(SortDedup(values)));
  }

  lemma {:induction false} ListFails(terms: seq<string>, i: nat, min: nat, max: nat)
    requires min <= max && i <= |terms| && ListValues(terms[..i], min, max).None?
    ensures ListValues(terms, min, max).None?
    decreases |terms| - i
  {
    if i == |terms| {
      assert terms[..i] == terms;
    } else {
      assert terms[..i + 1][..i] == terms[..i];
      ListFails(terms, i + 1, min, max);
    }
  }

  // ----- how many dictionaries a schedule needs -----

  function Width(field: CronField): nat {
    if field.Any? then 1 else |field.values|
  }

  /** The product of the set sizes, or None where it does not fit. */
  function CronCombinations(cron: Cron): Option<nat> {
    Fold(cron, 5)
  }

  function Fold(cron: Cron, n: nat): (total: Option<nat>)
    requires n <= 5
    ensures total.Some? ==> total.value <= U64_MAX
  {
    if n == 0 then Some(1)
    else
      var before := Fold(cron, n - 1);
      if before.None? || before.value * Width(cron.Field(KINDS[n - 1])) > U64_MAX then None
      else Some(before.value * Width(cron.Field(KINDS[n - 1])))
  }

  function Product(cron: Cron, n: nat): nat
    requires n <= 5
  {
    if n == 0 then 1 else Product(cron, n - 1) * Width(cron.Field(KINDS[n - 1]))
  }

  lemma {:induction false} IncreasingBounded(xs: seq<nat>, low: nat, high: nat)
    requires Increasing(xs) && low <= high && forall x | x in xs :: low <= x <= high
    ensures |xs| <= high - low + 1
    decreases |xs|
  {
    if |xs| > 1 {
      var last := |xs| - 1;
      assert xs[last - 1] < xs[last] && xs[last] in xs && xs[0] in xs;
      assert forall x | x in xs[..last] :: x in xs && x <= high - 1;
      IncreasingBounded(xs[..last], low, high - 1);
    }
  }

  lemma WidthBounded(kind: CronKind, field: CronField)
    requires CanonicalField(kind, field)
    ensures 1 <= Width(field) <= kind.Max() - kind.Min() + 1
  {
    if field.Values? {
      IncreasingBounded(field.values, kind.Min(), kind.Max());
    }
  }

  lemma ProductGrows(a: nat, b: nat, w: nat, cap: nat)
    requires a <= b && 1 <= w <= cap
    ensures a * w <= b * cap && (a >= 1 ==> a * w >= 1)
  {}

  /** No canonical schedule comes near the machine word, so the count is the product. */
  lemma CombinationsAreProduct(cron: Cron)
    requires Canonical(cron)
    ensures CronCombinations(cron) == Some(Product(cron, 5)) && Product(cron, 5) >= 1
  {
    hide CanonicalField;
    forall kind: CronKind
      ensures 1 <= Width(cron.Field(kind)) <= kind.Max() - kind.Min() + 1
    {
      assert CanonicalField(kind, cron.Field(kind));
      WidthBounded(kind, cron.Field(kind));
    }
    var caps := [1, 60, 1440, 44640, 535680, 4285440];
    for n := 0 to 5
      invariant 1 <= Product(cron, n) <= caps[n] && Fold(cron, n) == Some(Product(cron, n))
    {
      var kind := KINDS[n];
      ProductGrows(Product(cron, n), caps[n], Width(cron.Field(kind)), kind.Max() - kind.Min() + 1);
    }
  }

  datatype Parsed = Parsed(cron: Cron) | Invalid | TooBroad

  /** Five fields of the grammar that expand to no more dictionaries than launchd is given. */
  method ParseCron(value: string) returns (parsed: Parsed)
    ensures parsed.Parsed? ==>
              && Canonical(parsed.cron) && Product(parsed.cron, 5) <= MAX_CRON_COMBINATIONS
              && |Words(value)| == 5
              && forall i | 0 <= i < 5 :: FieldOf(KINDS[i], Words(value)[i]) == Some(parsed.cron.Field(KINDS[i]))
    ensures parsed.Invalid? <==> |Words(value)| != 5 || exists i | 0 <= i < 5 :: FieldOf(KINDS[i], Words(value)[i]).None?
    ensures parsed.TooBroad? ==>
              exists cron :: && Product(cron, 5) > MAX_CRON_COMBINATIONS
                             && forall i | 0 <= i < 5 :: FieldOf(KINDS[i], Words(value)[i]) == Some(cron.Field(KINDS[i]))
  {
    hide FieldOf, Words, CanonicalField, Product, CronCombinations;
    var fields := Words(value);
    if |fields| != 5 {
      return Invalid;
    }
    var read: seq<CronField> := [];
    for i := 0 to 5
      invariant |read| == i
      invariant forall k | 0 <= k < i :: FieldOf(KINDS[k], fields[k]) == Some(read[k])
    {
      var field := ParseCronField(KINDS[i], fields[i]);
      if field.None? {
        return Invalid;
      }
      read := read + [field.value];
    }
    var cron := Cron(read[0], read[1], read[2], read[3], read[4]);
    assert forall i | 0 <= i < 5 :: cron.Field(KINDS[i]) == read[i];
    CronIsCanonical(cron, fields);
    CombinationsAreProduct(cron);
    var count := CronCombinations(cron);
    if count.None? || count.value > MAX_CRON_COMBINATIONS {
      return TooBroad;
    }
    return Parsed(cron);
  }

  lemma CronIsCanonical(cron: Cron, fields: seq<string>)
    requires |fields| == 5 && forall i | 0 <= i < 5 :: FieldOf(KINDS[i], fields[i]) == Some(cron.Field(KINDS[i]))
    ensures Canonical(cron)
  {
    hide FieldOf, CanonicalField;
    forall kind: CronKind
      ensures CanonicalField(kind, cron.Field(kind))
    {
      var i := match kind case Minute => 0 case Hour => 1 case Day => 2 case Month => 3 case Weekday => 4;
      assert KINDS[i] == kind;
      FieldIsCanonical(kind, fields[i]);
    }
  }

  // ----- dictionaries for launchd -----

  datatype Entry = Entry(key: CronKind, value: nat)

  type Row = seq<Entry>

  datatype Restriction = Restriction(key: CronKind, values: seq<nat>)

  /** The fields among the first `n` that are not a star, in order. */
  function ActiveUpTo(cron: Cron, n: nat): seq<Restriction>
    requires n <= 5
  {
    if n == 0 then []
    else
      var field := cron.Field(KINDS[n - 1]);
      ActiveUpTo(cron, n - 1) + if field.Any? then [] else [Restriction(KINDS[n - 1], field.values)]
  }

  /** Each row continued by each value, the values varying fastest. */
  function Spread(rows: seq<Row>, r: Restriction): (next: seq<Row>)
    requires r.values != []
    ensures |next| == |rows| * |r.values|
  {
    seq(|rows| * |r.values|, i requires 0 <= i < |rows| * |r.values| =>
      InRange(i, |rows|, |r.values|);
      rows[i / |r.values|] + [Entry(r.key, r.values[i % |r.values|])])
  }

  lemma InRange(i: nat, n: nat, w: nat)
    requires i < n * w && w > 0
    ensures i / w < n
  {}

  lemma Opposite(a: int, w: int)
    ensures -a * w == -(a * w)
  {}

  lemma DivModUnique(r: nat, w: nat, v: nat)
    requires v < w
    ensures (r * w + v) / w == r && (r * w + v) % w == v
  {
    var i := r * w + v;
    var q := i / w;
    assert i == q * w + i % w;
    assert (r - q) * w == i % w - v;
    if r > q {
      AtLeastOnce(r - q, w);
    } else if r < q {
      AtLeastOnce(q - r, w);
      Opposite(r - q, w);
    }
  }

  predicate Nonempty(active: seq<Restriction>) {
    forall i | 0 <= i < |active| :: active[i].values != []
  }

  /** The product of the fields' sets in rows, the last field varying fastest. */
  function Rows(active: seq<Restriction>): seq<Row>
    requires Nonempty(active)
  {
    if active == [] then [[]] else Spread(Rows(active[..|active| - 1]), active[|active| - 1])
  }

  function Dict(row: Row): map<CronKind, nat> {
    if row == [] then map[] else Dict(row[..|row| - 1])[row[|row| - 1].key := row[|row| - 1].value]
  }

  function Dicts(rows: seq<Row>): (dicts: seq<map<CronKind, nat>>)
    ensures |dicts| == |rows| && forall i | 0 <= i < |rows| :: dicts[i] == Dict(rows[i])
  {
    if rows == [] then [] else Dicts(rows[..|rows| - 1]) + [Dict(rows[|rows| - 1])]
  }

  datatype Calendar = Single(dict: map<CronKind, nat>) | Many(dicts: seq<map<CronKind, nat>>) {
    function All(): seq<map<CronKind, nat>> {
      if Single? then [dict] else dicts
    }
  }

  lemma SpreadAt(rows: seq<Row>, r: Restriction, i: nat, v: nat)
    requires i < |rows| && v < |r.values|
    ensures i * |r.values| + v < |Spread(rows, r)|
    ensures Spread(rows, r)[i * |r.values| + v] == rows[i] + [Entry(r.key, r.values[v])]
  {
    DivModUnique(i, |r.values|, v);
    ProductGrows(i + 1, |rows|, |r.values|, |r.values|);
    assert (i + 1) * |r.values| == i * |r.values| + |r.values|;
  }

  /** The rows extended by one field, in the order the nested loops push them. */
  method SpreadRows(rows: seq<Row>, r: Restriction) returns (next: seq<Row>)
    requires r.values != []
    ensures next == Spread(rows, r)
  {
    hide Spread;
    next := [];
    var w := |r.values|;
    for i := 0 to |rows|
      invariant |next| == i * w && i * w <= |Spread(rows, r)|
      invariant next == Spread(rows, r)[..i * w]
    {
      SpreadAt(rows, r, i, w - 1);
      assert (i + 1) * w == i * w + w;
      for v := 0 to w
        invariant |next| == i * w + v
        invariant next == Spread(rows, r)[..i * w + v]
      {
        SpreadAt(rows, r, i, v);
        next := next + [rows[i] + [Entry(r.key, r.values[v])]];
      }
    }
  }

  lemma RowsNext(active: seq<Restriction>, n: nat)
    requires Nonempty(active) && n < |active|
    ensures Rows(active[..n + 1]) == Spread(Rows(active[..n]), active[n])
  {
    assert active[..n + 1][..n] == active[..n];
  }

  /** The only row when every field has one value. */
  method SingleRow(active: seq<Restriction>) returns (entries: Row)
    requires Nonempty(active) && forall i | 0 <= i < |active| :: |active[i].values| == 1
    ensures Rows(active) == [entries]
  {
    hide Rows, Spread;
    entries := [];
    NoRows();
    assert active[..0] == [];
    for n := 0 to |active|
      invariant Rows(active[..n]) == [entries]
    {
      RowsNext(active, n);
      SpreadAt([entries], active[n], 0, 0);
      entries := entries + [Entry(active[n].key, active[n].values[0])];
    }
    assert active[..|active|] == active;
  }

  method AllRows(active: seq<Restriction>) returns (rows: seq<Row>)
    requires Nonempty(active)
    ensures rows == Rows(active)
  {
    hide Rows, Spread;
    rows := [[]];
    NoRows();
    assert active[..0] == [];
    for n := 0 to |active|
      invariant rows == Rows(active[..n])
    {
      RowsNext(active, n);
      rows := SpreadRows(rows, active[n]);
    }
    assert active[..|active|] == active;
  }

  /** All single-valued: one dictionary; else one for each row of the product. */
  method PlistCalendar(cron: Cron) returns (calendar: Calendar)
    requires Canonical(cron)
    ensures Nonempty(ActiveUpTo(cron, 5))
    ensures calendar.All() == Dicts(Rows(ActiveUpTo(cron, 5)))
    ensures calendar.Single? <==> Product(cron, 5) == 1
  {
    hide Rows, CanonicalField, Product;
    ActiveNonempty(cron, 5);
    var active := ActiveUpTo(cron, 5);
    SingleIffProductOne(cron, 5);
    if forall i | 0 <= i < |active| :: |active[i].values| == 1 {
      var entries := SingleRow(active);
      assert [Dict(entries)] == Dicts([entries]);
      return Single(Dict(entries));
    }
    var rows := AllRows(active);
    return Many(Dicts(rows));
  }

  lemma {:induction false} ActiveNonempty(cron: Cron, n: nat)
    requires n <= 5 && Canonical(cron)
    ensures Nonempty(ActiveUpTo(cron, n))
  {
    if n > 0 {
      ActiveNonempty(cron, n - 1);
      assert CanonicalField(KINDS[n - 1], cron.Field(KINDS[n - 1]));
    }
  }

  /** A star adds nothing; any other field adds itself at the end. */
  lemma ActiveStep(cron: Cron, n: nat)
    requires 0 < n <= 5 && Nonempty(ActiveUpTo(cron, n))
    ensures var active, before, field := ActiveUpTo(cron, n), ActiveUpTo(cron, n - 1), cron.Field(KINDS[n - 1]);
            && Nonempty(before)
            && if field.Any? then active == before
               else active == before + [Restriction(KINDS[n - 1], field.values)] && active[..|active| - 1] == before
                    && field.values != []
  {
    var active, before := ActiveUpTo(cron, n), ActiveUpTo(cron, n - 1);
    assert active[..|before|] == before;
    assert forall i | 0 <= i < |before| :: before[i] == active[i];
    if cron.Field(KINDS[n - 1]).Values? {
      assert active[|before|].values == cron.Field(KINDS[n - 1]).values;
    }
  }

  /** There are exactly as many rows as the product of the set sizes. */
  lemma {:induction false} RowCount(cron: Cron, n: nat)
    requires n <= 5 && Nonempty(ActiveUpTo(cron, n))
    ensures |Rows(ActiveUpTo(cron, n))| == Product(cron, n)
  {
    hide Rows, Nonempty;
    if n == 0 {
      NoRows();
    } else {
      ActiveStep(cron, n);
      RowCount(cron, n - 1);
      var field := cron.Field(KINDS[n - 1]);
      if field.Values? {
        RowsGrow(ActiveUpTo(cron, n - 1), Restriction(KINDS[n - 1], field.values));
      }
    }
  }

  lemma NoRows()
    ensures Nonempty([]) && Rows([]) == [[]]
  {}

  lemma RowsGrow(before: seq<Restriction>, r: Restriction)
    requires Nonempty(before) && r.values != []
    ensures Nonempty(before + [r]) && Rows(before + [r]) == Spread(Rows(before), r)
  {}

  lemma {:induction false} SingleIffProductOne(cron: Cron, n: nat)
    requires n <= 5 && Nonempty(ActiveUpTo(cron, n))
    ensures Product(cron, n) >= 1
    ensures Product(cron, n) == 1 <==> forall i | 0 <= i < |ActiveUpTo(cron, n)| :: |ActiveUpTo(cron, n)[i].values| == 1
  {
    if n > 0 {
      ActiveStep(cron, n);
      SingleIffProductOne(cron, n - 1);
      var active, before := ActiveUpTo(cron, n), ActiveUpTo(cron, n - 1);
      if active != before {
        ProductOne(Product(cron, n - 1), |active[|before|].values|);
        assert forall i | 0 <= i < |before| :: before[i] == active[i];
      }
    }
  }

  lemma ProductOne(p: nat, w: nat)
    requires p >= 1 && w >= 1
    ensures p * w >= 1 && (p * w == 1 <==> p == 1 && w == 1)
  {}

  // ----- what the dictionaries mean -----

  /** Sunday is both 0 and 7. */
  predicate Agrees(kind: CronKind, value: nat, actual: nat) {
    if kind.Weekday? then value % 7 == actual % 7 else value == actual
  }

  predicate FieldHolds(kind: CronKind, field: CronField, actual: nat) {
    field.Any? || exists v | v in field.values :: Agrees(kind, v, actual)
  }

  predicate RestrictionHolds(r: Restriction, time: CronKind -> nat) {
    exists v | v in r.values :: Agrees(r.key, v, time(r.key))
  }

  predicate RowMatches(row: Row, time: CronKind -> nat) {
    forall e | e in row :: Agrees(e.key, e.value, time(e.key))
  }

  /** A time meets every restriction exactly if it matches one of the rows. */
  lemma {:induction false} RowsMatch(active: seq<Restriction>, time: CronKind -> nat)
    requires Nonempty(active)
    ensures (exists row | row in Rows(active) :: RowMatches(row, time)) <==>
            forall i | 0 <= i < |active| :: RestrictionHolds(active[i], time)
  {
    hide Spread, RestrictionHolds, Agrees;
    if active == [] {
      assert [] in Rows(active) && RowMatches([], time);
    } else {
      var before, r := active[..|active| - 1], active[|active| - 1];
      RowsMatch(before, time);
      SpreadMatches(Rows(before), r, time);
      assert forall i | 0 <= i < |before| :: before[i] == active[i];
      assert (forall i | 0 <= i < |active| :: RestrictionHolds(active[i], time)) <==>
             (forall i | 0 <= i < |before| :: RestrictionHolds(before[i], time)) && RestrictionHolds(r, time);
    }
  }

  lemma SpreadMatches(rows: seq<Row>, r: Restriction, time: CronKind -> nat)
    requires r.values != []
    ensures (exists row | row in Spread(rows, r) :: RowMatches(row, time)) <==>
            (exists row | row in rows :: RowMatches(row, time)) && RestrictionHolds(r, time)
  {
    hide Agrees, Spread, RowMatches;
    if row :| row in Spread(rows, r) && RowMatches(row, time) {
      var i, k := SpreadFrom(rows, r, row);
      ExtendedMatches(rows[i], Entry(r.key, r.values[k]), time);
    }
    if row, v :| row in rows && RowMatches(row, time) && v in r.values && Agrees(r.key, v, time(r.key)) {
      var i :| 0 <= i < |rows| && rows[i] == row;
      var k :| 0 <= k < |r.values| && r.values[k] == v;
      SpreadAt(rows, r, i, k);
      ExtendedMatches(row, Entry(r.key, v), time);
    }
  }

  lemma SpreadFrom(rows: seq<Row>, r: Restriction, row: Row) returns (i: nat, k: nat)
    requires r.values != [] && row in Spread(rows, r)
    ensures i < |rows| && k < |r.values| && row == rows[i] + [Entry(r.key, r.values[k])]
  {
    hide Spread;
    var w := |r.values|;
    var n :| 0 <= n < |Spread(rows, r)| && Spread(rows, r)[n] == row;
    InRange(n, |rows|, w);
    i, k := n / w, n % w;
    assert n == i * w + k;
    SpreadAt(rows, r, i, k);
  }

  lemma ExtendedMatches(row: Row, e: Entry, time: CronKind -> nat)
    ensures RowMatches(row + [e], time) <==> RowMatches(row, time) && Agrees(e.key, e.value, time(e.key))
  {}

  /** A time satisfies all five fields exactly if it matches some row. */
  lemma TimesMatchRows(cron: Cron, time: CronKind -> nat)
    requires Nonempty(ActiveUpTo(cron, 5))
    ensures (forall kind :: FieldHolds(kind, cron.Field(kind), time(kind))) <==>
            exists row | row in Rows(ActiveUpTo(cron, 5)) :: RowMatches(row, time)
  {
    hide Rows, Agrees;
    RowsMatch(ActiveUpTo(cron, 5), time);
    ActiveHolds(cron, time, 5);
    if forall i | 0 <= i < 5 :: FieldHolds(KINDS[i], cron.Field(KINDS[i]), time(KINDS[i])) {
      forall kind: CronKind
        ensures FieldHolds(kind, cron.Field(kind), time(kind))
      {
        var i := match kind case Minute => 0 case Hour => 1 case Day => 2 case Month => 3 case Weekday => 4;
        assert KINDS[i] == kind;
      }
    }
  }

  lemma {:induction false} ActiveHolds(cron: Cron, time: CronKind -> nat, n: nat)
    requires n <= 5 && Nonempty(ActiveUpTo(cron, n))
    ensures (forall i | 0 <= i < |ActiveUpTo(cron, n)| :: RestrictionHolds(ActiveUpTo(cron, n)[i], time)) <==>
            forall i | 0 <= i < n :: FieldHolds(KINDS[i], cron.Field(KINDS[i]), time(KINDS[i]))
  {
    hide Agrees;
    if n > 0 {
      ActiveStep(cron, n);
      ActiveHolds(cron, time, n - 1);
      var active, before := ActiveUpTo(cron, n), ActiveUpTo(cron, n - 1);
      assert forall i | 0 <= i < |before| :: before[i] == active[i];
      if active != before {
        var r := active[|before|];
        assert RestrictionHolds(r, time) <==> FieldHolds(KINDS[n - 1], cron.Field(KINDS[n - 1]), time(KINDS[n - 1]));
      }
    }
  }

  // ----- the order of the rows -----

  /** At the first entry where they differ, the value is smaller. */
  ghost predicate RowBefore(a: Row, b: Row) {
    |a| == |b| && exists k :: 0 <= k < |a| && a[..k] == b[..k] && a[k].key == b[k].key && a[k].value < b[k].value
  }

  predicate AllIncreasing(active: seq<Restriction>) {
    forall i | 0 <= i < |active| :: Increasing(active[i].values)
  }

  /** The rows come in ascending order, so no two are equal. */
  lemma {:induction false} RowsAscend(active: seq<Restriction>, i: nat, j: nat)
    requires Nonempty(active) && AllIncreasing(active) && i < j < |Rows(active)|
    ensures RowBefore(Rows(active)[i], Rows(active)[j]) && Rows(active)[i] != Rows(active)[j]
  {
    hide RowBefore;
    var before, r := active[..|active| - 1], active[|active| - 1];
    var w := |r.values|;
    InRange(i, |Rows(before)|, w);
    InRange(j, |Rows(before)|, w);
    QuotientsOrdered(i, j, w);
    var a, b := Rows(before)[i / w], Rows(before)[j / w];
    var a', b' := a + [Entry(r.key, r.values[i % w])], b + [Entry(r.key, r.values[j % w])];
    if i / w < j / w {
      RowsAscend(before, i / w, j / w);
      BeforeExtended(a, b, Entry(r.key, r.values[i % w]), Entry(r.key, r.values[j % w]));
    } else {
      BeforeAtEnd(a, r.key, r.values[i % w], r.values[j % w]);
    }
    BeforeDiffers(a', b');
  }

  lemma BeforeExtended(a: Row, b: Row, e: Entry, f: Entry)
    requires RowBefore(a, b)
    ensures RowBefore(a + [e], b + [f])
  {
    var k :| 0 <= k < |a| && a[..k] == b[..k] && a[k].key == b[k].key && a[k].value < b[k].value;
    assert (a + [e])[..k] == a[..k] && (b + [f])[..k] == b[..k];
  }

  lemma BeforeAtEnd(a: Row, key: CronKind, v: nat, v': nat)
    requires v < v'
    ensures RowBefore(a + [Entry(key, v)], a + [Entry(key, v')])
  {
    var l, r := a + [Entry(key, v)], a + [Entry(key, v')];
    assert l[..|a|] == r[..|a|] && l[|a|].value < r[|a|].value;
  }

  lemma BeforeDiffers(a: Row, b: Row)
    requires RowBefore(a, b)
    ensures a != b
  {}

  lemma QuotientsOrdered(i: nat, j: nat, w: nat)
    requires i < j && w > 0
    ensures i / w <= j / w && (i / w == j / w ==> i % w < j % w)
  {
    var p, q := i / w, j / w;
    assert i == p * w + i % w && j == q * w + j % w;
    if p > q {
      AtLeastOnce(p - q, w);
    }
  }

  /** Each entry of a row is the one for the restriction at its place. */
  ghost predicate Keyed(row: Row, active: seq<Restriction>) {
    |row| == |active| && forall k | 0 <= k < |row| :: row[k].key == active[k].key
  }

  predicate DistinctKeys(active: seq<Restriction>) {
    forall i, j | 0 <= i < j < |active| :: active[i].key != active[j].key
  }

  lemma {:induction false} RowsKeyed(active: seq<Restriction>, row: Row)
    requires Nonempty(active) && row in Rows(active)
    ensures Keyed(row, active)
  {
    hide Spread;
    if active != [] {
      var before, r := active[..|active| - 1], active[|active| - 1];
      var i, k := SpreadFrom(Rows(before), r, row);
      RowsKeyed(before, Rows(before)[i]);
    }
  }

  lemma {:induction false} DictAt(row: Row, active: seq<Restriction>, k: nat)
    requires Keyed(row, active) && DistinctKeys(active) && k < |row|
    ensures row[k].key in Dict(row) && Dict(row)[row[k].key] == row[k].value
  {
    var last := |row| - 1;
    if k < last {
      DictAt(row[..last], active[..last], k);
      assert row[k].key != row[last].key;
    }
  }

  lemma {:induction false} ActiveKeys(cron: Cron, n: nat)
    requires n <= 5
    ensures DistinctKeys(ActiveUpTo(cron, n))
    ensures forall i | 0 <= i < |ActiveUpTo(cron, n)| :: ActiveUpTo(cron, n)[i].key in KINDS[..n]
    ensures Canonical(cron) ==> AllIncreasing(ActiveUpTo(cron, n))
  {
    if n > 0 {
      ActiveKeys(cron, n - 1);
      assert KINDS[..n] == KINDS[..n - 1] + [KINDS[n - 1]];
      assert KINDS[n - 1] !in KINDS[..n - 1];
      assert Canonical(cron) ==> CanonicalField(KINDS[n - 1], cron.Field(KINDS[n - 1]));
    }
  }

  /** No two of the dictionaries of a schedule are the same. */
  lemma DictionariesDistinct(cron: Cron, i: nat, j: nat)
    requires Canonical(cron) && Nonempty(ActiveUpTo(cron, 5)) && i < j < |Rows(ActiveUpTo(cron, 5))|
    ensures Dicts(Rows(ActiveUpTo(cron, 5)))[i] != Dicts(Rows(ActiveUpTo(cron, 5)))[j]
  {
    hide Rows, Dict, ActiveUpTo, Canonical, DistinctKeys, AllIncreasing;
    var active := ActiveUpTo(cron, 5);
    ActiveKeys(cron, 5);
    RowsAscend(active, i, j);
    var a, b := Rows(active)[i], Rows(active)[j];
    RowsKeyed(active, a);
    RowsKeyed(active, b);
    var k :| 0 <= k < |a| && a[k].value < b[k].value;
    DictAt(a, active, k);
    DictAt(b, active, k);
    assert a[k].key == b[k].key;
  }

  predicate DictMatches(dict: map<CronKind, nat>, time: CronKind -> nat) {
    forall key | key in dict :: Agrees(key, dict[key], time(key))
  }

  lemma {:induction false} DictKeys(row: Row)
    ensures forall key | key in Dict(row) :: exists k | 0 <= k < |row| :: row[k].key == key
  {
    if row != [] {
      var last := |row| - 1;
      var front := row[..last];
      DictKeys(front);
      forall key | key in Dict(row)
        ensures exists k | 0 <= k < |row| :: row[k].key == key
      {
        if key != row[last].key {
          assert key in Dict(front);
          var k :| 0 <= k < |front| && front[k].key == key;
          assert row[k].key == key;
        } else {
          assert row[last].key == key;
        }
      }
    }
  }

  lemma DictMeansRow(row: Row, active: seq<Restriction>, time: CronKind -> nat)
    requires Keyed(row, active) && DistinctKeys(active)
    ensures DictMatches(Dict(row), time) <==> RowMatches(row, time)
  {
    hide Dict, Agrees, DistinctKeys;
    DictKeys(row);
    forall k | 0 <= k < |row|
      ensures row[k].key in Dict(row) && Dict(row)[row[k].key] == row[k].value
    {
      DictAt(row, active, k);
    }
    assert forall k | 0 <= k < |row| :: row[k] in row;
  }

  /** A time satisfies all five fields exactly if it matches one of the dictionaries launchd is given. */
  lemma TimesMatchDictionaries(cron: Cron, time: CronKind -> nat)
    requires Nonempty(ActiveUpTo(cron, 5))
    ensures (forall kind :: FieldHolds(kind, cron.Field(kind), time(kind))) <==>
            exists dict | dict in Dicts(Rows(ActiveUpTo(cron, 5))) :: DictMatches(dict, time)
  {
    hide Rows, Dict, DictMatches, RowMatches, ActiveUpTo, FieldHolds, DistinctKeys;
    TimesMatchRows(cron, time);
    ActiveKeys(cron, 5);
    var rows := Rows(ActiveUpTo(cron, 5));
    forall i | 0 <= i < |rows|
      ensures DictMatches(Dicts(rows)[i], time) <==> RowMatches(rows[i], time)
    {
      RowsKeyed(ActiveUpTo(cron, 5), rows[i]);
      DictMeansRow(rows[i], ActiveUpTo(cron, 5), time);
    }
    if row :| row in rows && RowMatches(row, time) {
      var i :| 0 <= i < |rows| && rows[i] == row;
      assert Dicts(rows)[i] in Dicts(rows);
    }
    if dict :| dict in Dicts(rows) && DictMatches(dict, time) {
      var i :| 0 <= i < |rows| && Dicts(rows)[i] == dict;
      assert rows[i] in rows;
    }
  }

  // ----- systemd -----

  const DAYS: seq<string> := ["Sun", "Mon", "Tue", "Wed", "Thu", "Fri", "Sat"]

  function WeekdayIndices(values: seq<nat>): (indices: seq<nat>)
    ensures Increasing(indices)
    ensures forall d :: d in indices <==> exists v | v in values :: v % 7 == d
  {
    Ascending(set v | v in values :: v % 7)
  }

  /** The weekdays systemd is given are those on which the field holds. */
  lemma WeekdaysAgree(values: seq<nat>, day: nat)
    requires day < 7
    ensures day in WeekdayIndices(values) <==> FieldHolds(Weekday, Values(values), day)
  {}

  function DayNames(indices: seq<nat>): seq<string>
    requires forall i | 0 <= i < |indices| :: indices[i] < 7
  {
    if indices == [] then [] else DayNames(indices[..|indices| - 1]) + [DAYS[indices[|indices| - 1]]]
  }

  /** The parts of a calendar expression: weekdays if there are any, the date and the time of day. */
  function CalendarParts(cron: Cron): (parts: seq<string>)
    requires Canonical(cron)
    ensures |parts| == if cron.weekday.Any? then 2 else 3
  {
    FieldsCanonical(cron);
    var date := Join(["*", SystemdField(Month, cron.month), SystemdField(Day, cron.day)], '-');
    var time := Join([SystemdField(Hour, cron.hour), SystemdField(Minute, cron.minute), "00"], ':');
    if cron.weekday.Any? then [date, time]
    else
      WeekdaysInRange(cron.weekday.values);
      [Join(DayNames(WeekdayIndices(cron.weekday.values)), ','), date, time]
  }

  function SystemdCalendar(cron: Cron): string
    requires Canonical(cron)
  {
    Join(CalendarParts(cron), ' ')
  }

  lemma FieldsCanonical(cron: Cron)
    requires Canonical(cron)
    ensures CanonicalField(Minute, cron.minute) && CanonicalField(Hour, cron.hour) && CanonicalField(Day, cron.day)
    ensures CanonicalField(Month, cron.month) && CanonicalField(Weekday, cron.weekday)
  {
    assert cron.Field(Minute) == cron.minute && cron.Field(Hour) == cron.hour && cron.Field(Day) == cron.day;
    assert cron.Field(Month) == cron.month && cron.Field(Weekday) == cron.weekday;
    assert forall kind :: CanonicalField(kind, cron.Field(kind));
  }

  lemma WeekdaysInRange(values: seq<nat>)
    requires values != []
    ensures WeekdayIndices(values) != [] && forall i | 0 <= i < |WeekdayIndices(values)| :: WeekdayIndices(values)[i] < 7
  {
    var indices := WeekdayIndices(values);
    assert values[0] in values && values[0] % 7 in indices;
    assert forall i | 0 <= i < |indices| :: indices[i] in indices;
  }

  lemma {:induction false} JoinLacks(parts: seq<string>, glue: char, c: char)
    requires parts != [] && c != glue && forall i | 0 <= i < |parts| :: c !in parts[i]
    ensures c !in Join(parts, glue)
  {
    if |parts| > 1 {
      JoinLacks(parts[1..], glue, c);
    }
  }

  /** A printed field holds only digits, commas and a star. */
  lemma FieldLacks(kind: CronKind, field: CronField, c: char)
    requires CanonicalField(kind, field) && !IsDigit(c) && c != ',' && c != '*'
    ensures c !in SystemdField(kind, field)
  {
    hide Print;
    if field.Values? {
      var parts := Printed(field.values, kind.SystemdPadded());
      forall i | 0 <= i < |parts|
        ensures c !in parts[i]
      {
        assert AllDigits(parts[i]);
      }
      JoinLacks(parts, ',', c);
    }
  }

  lemma {:induction false} NamesLack(indices: seq<nat>, c: char)
    requires forall i | 0 <= i < |indices| :: indices[i] < 7
    requires c == ' ' || c == ','
    ensures |DayNames(indices)| == |indices| && forall i | 0 <= i < |indices| :: c !in DayNames(indices)[i]
  {
    if indices != [] {
      NamesLack(indices[..|indices| - 1], c);
    }
  }

  /** No part of the expression holds a blank, so it can be taken apart at the blanks again. */
  lemma CalendarSplits(cron: Cron)
    requires Canonical(cron)
    ensures Split(SystemdCalendar(cron), ' ') == CalendarParts(cron)
  {
    hide SystemdField, DayNames, WeekdayIndices, Join, CanonicalField;
    FieldsCanonical(cron);
    FieldLacks(Month, cron.month, ' ');
    FieldLacks(Day, cron.day, ' ');
    FieldLacks(Hour, cron.hour, ' ');
    FieldLacks(Minute, cron.minute, ' ');
    JoinLacks(["*", SystemdField(Month, cron.month), SystemdField(Day, cron.day)], '-', ' ');
    JoinLacks([SystemdField(Hour, cron.hour), SystemdField(Minute, cron.minute), "00"], ':', ' ');
    if cron.weekday.Values? {
      NamesJoined(cron.weekday);
    }
    SplitJoin(CalendarParts(cron), ' ');
  }

  lemma NamesJoined(field: CronField)
    requires field.Values? && CanonicalField(Weekday, field)
    ensures WeekdayIndices(field.values) != []
    ensures forall i | 0 <= i < |WeekdayIndices(field.values)| :: WeekdayIndices(field.values)[i] < 7
    ensures var names := DayNames(WeekdayIndices(field.values));
            names != [] && ' ' !in Join(names, ',') && Split(Join(names, ','), ',') == names
  {
    WeekdaysInRange(field.values);
    var indices := WeekdayIndices(field.values);
    NamesLack(indices, ' ');
    NamesLack(indices, ',');
    JoinLacks(DayNames(indices), ',', ' ');
    SplitJoin(DayNames(indices), ',');
  }

  /** What reading a calendar expression gives: its weekday names, if any, and its four numeric fields. */
  datatype Reading = Reading(
    days: Option<seq<string>>,
    month: Option<CronField>,
    day: Option<CronField>,
    hour: Option<CronField>,
    minute: Option<CronField>)

  /** Takes `days *-month-day hour:minute:00` apart; None for anything else. */
  ghost function ReadCalendar(text: string): Option<Reading> {
    var parts := Split(text, ' ');
    if |parts| != 2 && |parts| != 3 then None
    else
      var date, time := Split(parts[|parts| - 2], '-'), Split(parts[|parts| - 1], ':');
      if |date| != 3 || |time| != 3 || date[0] != "*" || time[2] != "00" then None
      else
        Some(Reading(if |parts| == 2 then None else Some(Split(parts[0], ',')),
                     FieldOf(Month, date[1]), FieldOf(Day, date[2]), FieldOf(Hour, time[0]), FieldOf(Minute, time[1])))
  }

  function DaysOf(field: CronField): Option<seq<string>>
    requires CanonicalField(Weekday, field)
  {
    if field.Any? then None
    else
      WeekdaysInRange(field.values);
      Some(DayNames(WeekdayIndices(field.values)))
  }

  lemma DateAndTimeSplit(cron: Cron)
    requires Canonical(cron)
    ensures var parts := CalendarParts(cron);
            && CanonicalField(Month, cron.month) && CanonicalField(Day, cron.day)
            && CanonicalField(Hour, cron.hour) && CanonicalField(Minute, cron.minute)
            && Split(parts[|parts| - 2], '-') == ["*", SystemdField(Month, cron.month), SystemdField(Day, cron.day)]
            && Split(parts[|parts| - 1], ':') == [SystemdField(Hour, cron.hour), SystemdField(Minute, cron.minute), "00"]
  {
    hide SystemdField, DayNames, WeekdayIndices, Join, Split, CanonicalField;
    FieldsCanonical(cron);
    FieldLacks(Month, cron.month, '-');
    FieldLacks(Day, cron.day, '-');
    FieldLacks(Hour, cron.hour, ':');
    FieldLacks(Minute, cron.minute, ':');
    SplitJoin(["*", SystemdField(Month, cron.month), SystemdField(Day, cron.day)], '-');
    SplitJoin([SystemdField(Hour, cron.hour), SystemdField(Minute, cron.minute), "00"], ':');
  }

  /** Read again, the expression gives back all five fields, each in its place. */
  lemma CalendarReadsBack(cron: Cron)
    requires Canonical(cron)
    ensures CanonicalField(Weekday, cron.weekday)
    ensures ReadCalendar(SystemdCalendar(cron))
         == Some(Reading(DaysOf(cron.weekday), Some(cron.month), Some(cron.day), Some(cron.hour), Some(cron.minute)))
  {
    hide SystemdField, FieldOf, DayNames, WeekdayIndices, Join, Split, SystemdCalendar, CanonicalField;
    CalendarSplits(cron);
    FieldsCanonical(cron);
    DateAndTimeSplit(cron);
    if cron.weekday.Values? {
      NamesJoined(cron.weekday);
    }
    PrintParseRoundTrip(Month, cron.month);
    PrintParseRoundTrip(Day, cron.day);
    PrintParseRoundTrip(Hour, cron.hour);
    PrintParseRoundTrip(Minute, cron.minute);
  }

  // ----- both renderings mean the same times -----

  ghost predicate ReadingHolds(reading: Reading, time: CronKind -> nat) {
    && (reading.days.Some? ==> DAYS[time(Weekday) % 7] in reading.days.value)
    && reading.month.Some? && FieldHolds(Month, reading.month.value, time(Month))
    && reading.day.Some? && FieldHolds(Day, reading.day.value, time(Day))
    && reading.hour.Some? && FieldHolds(Hour, reading.hour.value, time(Hour))
    && reading.minute.Some? && FieldHolds(Minute, reading.minute.value, time(Minute))
  }

  lemma {:induction false} NamedDay(indices: seq<nat>, d: nat)
    requires d < 7 && forall i | 0 <= i < |indices| :: indices[i] < 7
    ensures DAYS[d] in DayNames(indices) <==> d in indices
  {
    if indices != [] {
      NamedDay(indices[..|indices| - 1], d);
      DaysDiffer(d, indices[|indices| - 1]);
      assert d in indices <==> d in indices[..|indices| - 1] || d == indices[|indices| - 1];
    }
  }

  lemma DaysDiffer(d: nat, e: nat)
    requires d < 7 && e < 7
    ensures DAYS[d] == DAYS[e] ==> d == e
  {
    var marks := seq(7, k requires 0 <= k < 7 => (DAYS[k][0], DAYS[k][1]));
    assert marks[d] == (DAYS[d][0], DAYS[d][1]) && marks[e] == (DAYS[e][0], DAYS[e][1]);
  }

  lemma DaysHold(field: CronField, actual: nat)
    requires CanonicalField(Weekday, field)
    ensures (DaysOf(field).Some? ==> DAYS[actual % 7] in DaysOf(field).value) <==> FieldHolds(Weekday, field, actual)
  {
    hide DayNames, WeekdayIndices;
    if field.Values? {
      WeekdaysInRange(field.values);
      NamedDay(WeekdayIndices(field.values), actual % 7);
      WeekdaysAgree(field.values, actual % 7);
    }
  }

  /** The expression for systemd and the dictionaries for launchd match exactly the same times. */
  lemma RenderingsAgree(cron: Cron, time: CronKind -> nat)
    requires Canonical(cron) && Nonempty(ActiveUpTo(cron, 5))
    ensures ReadCalendar(SystemdCalendar(cron)).Some?
    ensures ReadingHolds(ReadCalendar(SystemdCalendar(cron)).value, time) <==>
            exists dict | dict in Dicts(Rows(ActiveUpTo(cron, 5))) :: DictMatches(dict, time)
  {
    hide ReadCalendar, SystemdCalendar, DaysOf, FieldHolds, Rows, ActiveUpTo, DictMatches, Dicts, CanonicalField;
    CalendarReadsBack(cron);
    DaysHold(cron.weekday, time(Weekday));
    TimesMatchDictionaries(cron, time);
    AllFields(cron, time);
  }

  lemma AllFields(cron: Cron, time: CronKind -> nat)
    ensures (forall kind :: FieldHolds(kind, cron.Field(kind), time(kind))) <==>
              && FieldHolds(Minute, cron.minute, time(Minute)) && FieldHolds(Hour, cron.hour, time(Hour))
              && FieldHolds(Day, cron.day, time(Day)) && FieldHolds(Month, cron.month, time(Month))
              && FieldHolds(Weekday, cron.weekday, time(Weekday))
  {
    hide FieldHolds;
    assert cron.Field(Minute) == cron.minute && cron.Field(Hour) == cron.hour && cron.Field(Day) == cron.day;
    assert cron.Field(Month) == cron.month && cron.Field(Weekday) == cron.weekday;
  }
}
