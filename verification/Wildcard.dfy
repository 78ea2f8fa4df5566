/**
  The wildcard matcher of glob expansion: one left-to-right scan that remembers only the last star.
  It is compared with the declarative reading of a pattern, in which a star stands for any text.
 */
module Wildcards {
  import opened Text

  // ----- character classes -----

  /** Position of the first `]`. */
  function Close(s: string): (end: Option<nat>)
    ensures end.Some? ==> end.value < |s| && s[end.value] == ']' && ']' !in s[..end.value]
    ensures end.None? ==> ']' !in s
  {
    if s == [] then None
    else if s[0] == ']' then Some(0)
    else
      match Close(s[1..])
      case None => None
      case Some(e) =>
        assert s[..e + 1] == [s[0]] + s[1..][..e];
        Some(e + 1)
  }

  predicate Negated(body: string) {
    body != [] && (body[0] == '!' || body[0] == '^')
  }

  function Members(body: string): string {
    if Negated(body) then body[1..] else body
  }

  /** Whether `b` is one of the listed bytes or lies in one of the listed ranges. */
  predicate InMembers(members: string, b: char) {
    if members == [] then false
    else if |members| >= 3 && members[1] == '-' then
      members[0] <= b <= members[2] || InMembers(members[3..], b)
    else
      members[0] == b || InMembers(members[1..], b)
  }

  predicate InClass(body: string, b: char) {
    InMembers(Members(body), b) != Negated(body)
  }

  method ClassMatches(body: string, b: char) returns (matches: bool)
    ensures matches == InClass(body, b)
  {
    var negated := Negated(body);
    var members := if negated then body[1..] else body;
    var matched := false;
    var index := 0;
    while index < |members|
      invariant 0 <= index <= |members|
      invariant InMembers(members, b) == (matched || InMembers(members[index..], b))
    {
      if index + 2 < |members| && members[index + 1] == '-' {
        assert members[index..][3..] == members[index + 3..];
        matched := matched || members[index] <= b <= members[index + 2];
        index := index + 3;
      } else {
        assert members[index..][1..] == members[index + 1..];
        matched := matched || members[index] == b;
        index := index + 1;
      }
    }
    matches := matched != negated;
  }

  // ----- what a pattern means -----

  /** Every `[` opens a class that some `]` closes. */
  predicate Closed(pattern: string) {
    if pattern == [] then true
    else if pattern[0] == '[' then
      var end := Close(pattern[1..]);
      end.Some? && Closed(pattern[end.value + 2..])
    else Closed(pattern[1..])
  }

  /** The declarative reading: a star stands for any text, `?` for one byte, a class for one member. */
  predicate Glob(pattern: string, text: string)
    decreases |pattern| + |text|
  {
    if pattern == [] then text == []
    else if pattern[0] == '*' then
      Glob(pattern[1..], text) || (text != [] && Glob(pattern, text[1..]))
    else if text == [] then false
    else if pattern[0] == '[' then
      var end := Close(pattern[1..]);
      end.Some? && InClass(pattern[1..end.value + 1], text[0]) && Glob(pattern[end.value + 2..], text[1..])
    else
      (pattern[0] == '?' || pattern[0] == text[0]) && Glob(pattern[1..], text[1..])
  }

  // ----- the meaning told by the parts of a pattern -----

  /** A listed byte or a listed range. */
  datatype Member = One(c: char) | Through(low: char, high: char) {
    predicate Takes(b: char) {
      if One? then b == c else low <= b <= high
    }

    function Text(): string {
      if One? then [c] else [low, '-', high]
    }
  }

  function MembersText(members: seq<Member>): string {
    if members == [] then "" else members[0].Text() + MembersText(members[1..])
  }

  /** What could be read as a range is. */
  ghost predicate RangesFirst(members: seq<Member>) {
    forall i | 0 <= i < |members| && members[i].One? ::
      var rest := MembersText(members[i + 1..]); !(|rest| >= 2 && rest[0] == '-')
  }

  lemma {:induction false} MembersExact(text: string, b: char) returns (members: seq<Member>)
    ensures MembersText(members) == text && RangesFirst(members)
    ensures InMembers(text, b) <==> exists m | m in members :: m.Takes(b)
    decreases |text|
  {
    members := [];
    if text != [] {
      if |text| >= 3 && text[1] == '-' {
        var rest := MembersExact(text[3..], b);
        members := [Through(text[0], text[2])] + rest;
        assert text == [text[0], '-', text[2]] + text[3..];
        FirstMember(members, rest, text, b);
      } else {
        var rest := MembersExact(text[1..], b);
        members := [One(text[0])] + rest;
        assert text == [text[0]] + text[1..];
        FirstMember(members, rest, text, b);
      }
    }
  }

  lemma FirstMember(members: seq<Member>, rest: seq<Member>, text: string, b: char)
    requires |members| == |rest| + 1 && members[1..] == rest && text == members[0].Text() + MembersText(rest)
    requires RangesFirst(rest) && (members[0].One? ==> !(|text| >= 3 && text[1] == '-'))
    ensures MembersText(members) == text && RangesFirst(members)
    ensures (exists m | m in members :: m.Takes(b)) <==> members[0].Takes(b) || exists m | m in rest :: m.Takes(b)
  {
    forall i | 0 <= i < |members| && members[i].One?
      ensures var after := MembersText(members[i + 1..]); !(|after| >= 2 && after[0] == '-')
    {
      if i > 0 {
        assert members[i] == rest[i - 1] && members[i + 1..] == rest[i..];
      }
    }
    assert forall m | m in members :: m == members[0] || m in rest;
  }

  /** With `!` or `^` in front a class takes what the rest of it does not. */
  lemma ClassExact(body: string, b: char) returns (members: seq<Member>)
    ensures RangesFirst(members)
    ensures var negated := body != [] && body[0] in {'!', '^'};
            && MembersText(members) == (if negated then body[1..] else body)
            && (InClass(body, b) <==> ((exists m | m in members :: m.Takes(b)) != negated))
  {
    members := MembersExact(Members(body), b);
  }

  datatype Part = AnyText | AnyByte | OfClass(body: string) | Itself(c: char) {
    function Text(): string {
      match this
      case AnyText => "*"
      case AnyByte => "?"
      case OfClass(body) => "[" + body + "]"
      case Itself(c) => [c]
    }

    predicate Takes(piece: string) {
      match this
      case AnyText => true
      case AnyByte => |piece| == 1
      case OfClass(body) => |piece| == 1 && InClass(body, piece[0])
      case Itself(c) => piece == [c]
    }

    /** A class ends at the first bracket, and the special bytes never stand for themselves. */
    predicate Plain() {
      match this
      case AnyText => true
      case AnyByte => true
      case OfClass(body) => ']' !in body
      case Itself(c) => c !in {'*', '?', '['}
    }
  }

  function PartsText(parts: seq<Part>): string {
    if parts == [] then "" else parts[0].Text() + PartsText(parts[1..])
  }

  function Pieced(pieces: seq<string>): string {
    if pieces == [] then "" else pieces[0] + Pieced(pieces[1..])
  }

  ghost predicate TakenBy(parts: seq<Part>, pieces: seq<string>) {
    |pieces| == |parts| && forall i | 0 <= i < |parts| :: parts[i].Takes(pieces[i])
  }

  ghost predicate Takeable(parts: seq<Part>, text: string) {
    exists pieces :: TakenBy(parts, pieces) && Pieced(pieces) == text
  }

  /** The parts of a closed pattern. */
  lemma {:induction false} PatternParts(pattern: string) returns (parts: seq<Part>)
    requires Closed(pattern)
    ensures PartsText(parts) == pattern && forall part | part in parts :: part.Plain()
    decreases |pattern|
  {
    parts := [];
    if pattern != [] {
      var first, n := Itself(pattern[0]), 1;
      if pattern[0] == '*' {
        first := AnyText;
      } else if pattern[0] == '?' {
        first := AnyByte;
      } else if pattern[0] == '[' {
        n := Close(pattern[1..]).value + 2;
        first := OfClass(pattern[1..n - 1]);
        assert pattern[1..][..n - 2] == pattern[1..n - 1];
      }
      assert pattern == first.Text() + pattern[n..];
      var rest := PatternParts(pattern[n..]);
      parts := [first] + rest;
    }
  }

  lemma FirstTaken(parts: seq<Part>, text: string, n: nat)
    requires parts != [] && n <= |text| && parts[0].Takes(text[..n]) && Takeable(parts[1..], text[n..])
    ensures Takeable(parts, text)
  {
    var pieces :| TakenBy(parts[1..], pieces) && Pieced(pieces) == text[n..];
    var all := [text[..n]] + pieces;
    assert all[1..] == pieces && text == text[..n] + text[n..];
    assert TakenBy(parts, all) && Pieced(all) == text;
  }

  lemma TakenFirst(parts: seq<Part>, text: string) returns (n: nat)
    requires parts != [] && Takeable(parts, text)
    ensures n <= |text| && parts[0].Takes(text[..n]) && Takeable(parts[1..], text[n..])
  {
    var pieces :| TakenBy(parts, pieces) && Pieced(pieces) == text;
    n := |pieces[0]|;
    assert text[..n] == pieces[0] && text[n..] == Pieced(pieces[1..]);
    assert TakenBy(parts[1..], pieces[1..]);
  }

  /** The text is cut into as many pieces as the pattern has parts, and each part takes its piece. */
  lemma {:induction false} GlobTakes(parts: seq<Part>, text: string)
    requires forall part | part in parts :: part.Plain()
    ensures Glob(PartsText(parts), text) <==> Takeable(parts, text)
    decreases |parts|, |text|
  {
    if parts == [] {
      assert TakenBy([], []) && Pieced([]) == "";
      assert forall pieces :: TakenBy([], pieces) ==> pieces == [];
      return;
    }
    assert parts[0] in parts && forall part | part in parts[1..] :: part in parts;
    var rest := PartsText(parts[1..]);
    if parts[0].AnyText? {
      StarTakes(parts, text);
    } else {
      if text != [] {
        GlobTakes(parts[1..], text[1..]);
      }
      OneByteTakes(parts, text);
    }
  }

  /** Every closed pattern has parts, and means that they take the text piece by piece. */
  lemma GlobExact(pattern: string, text: string) returns (parts: seq<Part>)
    requires Closed(pattern)
    ensures PartsText(parts) == pattern && forall part | part in parts :: part.Plain()
    ensures Glob(pattern, text) <==> Takeable(parts, text)
  {
    parts := PatternParts(pattern);
    GlobTakes(parts, text);
  }

  lemma {:induction false} StarTakes(parts: seq<Part>, text: string)
    requires parts != [] && parts[0].AnyText? && forall part | part in parts :: part.Plain()
    ensures Glob(PartsText(parts), text) <==> Takeable(parts, text)
    decreases |parts|, |text|, 0
  {
    assert forall part | part in parts[1..] :: part in parts;
    var pattern, rest := PartsText(parts), PartsText(parts[1..]);
    assert pattern == "*" + rest && pattern[1..] == rest;
    GlobTakes(parts[1..], text);
    if text != [] {
      StarTakes(parts, text[1..]);
    }
    if Takeable(parts, text) {
      var n := TakenFirst(parts, text);
      if n == 0 {
        assert text[0..] == text;
      } else {
        assert text[n..] == text[1..][n - 1..];
        FirstTaken(parts, text[1..], n - 1);
      }
    }
    if Takeable(parts[1..], text) {
      assert text[0..] == text;
      FirstTaken(parts, text, 0);
    }
    if text != [] && Takeable(parts, text[1..]) {
      var n := TakenFirst(parts, text[1..]);
      assert text[1..][n..] == text[n + 1..];
      FirstTaken(parts, text, n + 1);
    }
  }

  lemma OneByteTakes(parts: seq<Part>, text: string)
    requires parts != [] && !parts[0].AnyText? && parts[0].Plain()
    requires text != [] ==> (Glob(PartsText(parts[1..]), text[1..]) <==> Takeable(parts[1..], text[1..]))
    ensures Glob(PartsText(parts), text) <==> Takeable(parts, text)
  {
    OneByteGlob(parts[0], PartsText(parts[1..]), text);
    if Takeable(parts, text) {
      var n := TakenFirst(parts, text);
      assert n == 1 && text[..1] == [text[0]];
    }
    if text != [] && parts[0].Takes(text[..1]) && Takeable(parts[1..], text[1..]) {
      FirstTaken(parts, text, 1);
    }
  }

  lemma OneByteGlob(part: Part, rest: string, text: string)
    requires !part.AnyText? && part.Plain()
    ensures Glob(part.Text() + rest, text) <==> text != [] && part.Takes(text[..1]) && Glob(rest, text[1..])
  {
    if part.OfClass? {
      ClassGlob(part.body, rest, text);
    } else {
      assert (part.Text() + rest)[1..] == rest;
    }
  }

  lemma ClassGlob(body: string, rest: string, text: string)
    requires ']' !in body
    ensures Glob("[" + body + "]" + rest, text) <==> text != [] && InClass(body, text[0]) && Glob(rest, text[1..])
  {
    hide InClass, Close;
    var pattern := "[" + body + "]" + rest;
    var after := body + "]" + rest;
    ClosesAfter(body, rest);
    assert pattern == "[" + after && pattern[1..] == after && pattern[0] == '[';
    assert pattern[1..|body| + 1] == body && pattern[|body| + 2..] == rest;
  }

  lemma {:induction false} ClosesAfter(body: string, rest: string)
    requires ']' !in body
    ensures Close(body + "]" + rest) == Some(|body|)
  {
    var s := body + "]" + rest;
    if body != [] {
      assert s[1..] == body[1..] + "]" + rest;
      ClosesAfter(body[1..], rest);
      assert s[0] == body[0] && body[0] in body;
    }
  }

  // ----- the scan -----

  /** Where the pattern goes on if its item at `p`, read literally first, takes the byte at `v`. */
  function Item(pattern: string, text: string, p: nat, v: nat): (next: Option<nat>)
    requires p < |pattern| && v < |text|
    ensures next.Some? ==> p < next.value <= |pattern|
  {
    if pattern[p] == '?' || pattern[p] == text[v] then Some(p + 1)
    else if pattern[p] == '[' then
      match Close(pattern[p + 1..])
      case None => None
      case Some(end) => if InClass(pattern[p + 1..p + 1 + end], text[v]) then Some(p + end + 2) else None
    else None
  }

  /** The scan from pattern position `p` and text position `v`; `star` is the last star passed and
      `retry` the text position where it was last taken to end. */
  predicate Scan(pattern: string, text: string, p: nat, v: nat, star: Option<nat>, retry: nat)
    requires p <= |pattern| && retry <= v <= |text| && (star.Some? ==> star.value < |pattern|)
    decreases |text| - retry, |pattern| - p
  {
    if v == |text| then OnlyStars(pattern[p..])
    else if p < |pattern| && Item(pattern, text, p, v).Some? then
      Scan(pattern, text, Item(pattern, text, p, v).value, v + 1, star, retry)
    else if p < |pattern| && pattern[p] == '[' && Close(pattern[p + 1..]).None? then false
    else if p < |pattern| && pattern[p] == '*' then Scan(pattern, text, p + 1, v, Some(p), v)
    else star.Some? && Scan(pattern, text, star.value + 1, retry + 1, star, retry + 1)
  }

  predicate OnlyStars(s: string) {
    forall i | 0 <= i < |s| :: s[i] == '*'
  }

  predicate Matches(pattern: string, text: string) {
    Scan(pattern, text, 0, 0, None, 0)
  }

  /** The item at `p` against the byte at `v`. */
  method TakeItem(pattern: string, text: string, p: nat, v: nat) returns (next: Option<nat>)
    requires p < |pattern| && v < |text|
    ensures next == Item(pattern, text, p, v)
  {
    next := None;
    if pattern[p] == '?' || pattern[p] == text[v] {
      next := Some(p + 1);
    } else if pattern[p] == '[' {
      var end := Close(pattern[p + 1..]);
      if end.Some? {
        var inClass := ClassMatches(pattern[p + 1..p + 1 + end.value], text[v]);
        next := if inClass then Some(p + end.value + 2) else None;
      }
    }
  }

  method WildcardMatch(pattern: string, text: string) returns (matches: bool)
    ensures matches == Matches(pattern, text)
  {
    hide Item, OnlyStars, Close;
    var p: nat, v: nat := 0, 0;
    var star: Option<nat> := None;
    var retry: nat := 0;
    while v < |text|
      invariant p <= |pattern| && retry <= v <= |text| && (star.Some? ==> star.value < |pattern|)
      invariant Scan(pattern, text, p, v, star, retry) == Matches(pattern, text)
      decreases |text| - retry, |pattern| - p
    {
      var next := None;
      if p < |pattern| {
        next := TakeItem(pattern, text, p, v);
      }
      if next.Some? {
        p, v := next.value, v + 1;
      } else if p < |pattern| && pattern[p] == '[' && Close(pattern[p + 1..]).None? {
        return false;
      } else if p < |pattern| && pattern[p] == '*' {
        star, p, retry := Some(p), p + 1, v;
      } else if star.Some? {
        p, retry := star.value + 1, retry + 1;
        v := retry;
      } else {
        return false;
      }
    }
    matches := SkipStars(pattern, p);
  }

  /** The loop after the scan: skips trailing stars and checks that nothing else is left. */
  method SkipStars(pattern: string, from: nat) returns (done: bool)
    requires from <= |pattern|
    ensures done == OnlyStars(pattern[from..])
  {
    var p := from;
    while p < |pattern| && pattern[p] == '*'
      invariant from <= p <= |pattern|
      invariant OnlyStars(pattern[p..]) == OnlyStars(pattern[from..])
    {
      assert pattern[p..] == ['*'] + pattern[p + 1..];
      p := p + 1;
    }
    assert p < |pattern| ==> pattern[p..][0] != '*';
    done := p == |pattern|;
  }

  // ----- the scan without memory: a star that meets a star byte is taken literally -----

  /** What the scan accepts, read declaratively: like `Glob`, but a star facing a `*` byte matches just
      that byte. */
  ghost predicate LiteralFirst(pattern: string, text: string)
    decreases |pattern|
  {
    if pattern == [] then text == []
    else if text == [] then pattern[0] == '*' && LiteralFirst(pattern[1..], text)
    else if pattern[0] == '?' || pattern[0] == text[0] then LiteralFirst(pattern[1..], text[1..])
    else if pattern[0] == '[' then
      var end := Close(pattern[1..]);
      end.Some? && InClass(pattern[1..end.value + 1], text[0]) && LiteralFirst(pattern[end.value + 2..], text[1..])
    else
      pattern[0] == '*' && exists k | 0 <= k <= |text| :: LiteralFirst(pattern[1..], text[k..])
  }

  /** Some later end of the remembered star makes the rest match. */
  ghost predicate Later(pattern: string, text: string, star: Option<nat>, retry: nat)
    requires star.Some? ==> star.value < |pattern|
  {
    star.Some? && exists k | retry < k <= |text| :: LiteralFirst(pattern[star.value + 1..], text[k..])
  }

  ghost predicate FromOn(pattern: string, text: string, p: nat, v: nat)
    requires p <= |pattern|
  {
    exists a | v <= a <= |text| :: LiteralFirst(pattern[p..], text[a..])
  }

  /** Whatever a later end of the star could still match is matched from here on too: forgetting all
      stars but the last loses nothing. */
  ghost predicate Covered(pattern: string, text: string, p: nat, v: nat, star: Option<nat>, retry: nat)
    requires p <= |pattern| && (star.Some? ==> star.value < |pattern|)
  {
    Later(pattern, text, star, retry) ==> FromOn(pattern, text, p, v)
  }

  lemma EmptyTextMatch(pattern: string)
    ensures LiteralFirst(pattern, []) == OnlyStars(pattern)
  {}

  /** Unfolding one step of `LiteralFirst` at positions of the whole pattern and text. */
  lemma LiteralFirstAt(pattern: string, text: string, p: nat, v: nat)
    requires p < |pattern| && v < |text|
    ensures
      var here, item := LiteralFirst(pattern[p..], text[v..]), Item(pattern, text, p, v);
      here == if item.Some? then LiteralFirst(pattern[item.value..], text[v + 1..])
              else pattern[p] == '*' && FromOn(pattern, text, p + 1, v)
  {
    var ps, ts := pattern[p..], text[v..];
    assert ps[0] == pattern[p] && ts[0] == text[v];
    assert ps[1..] == pattern[p + 1..] && ts[1..] == text[v + 1..];
    if pattern[p] == '?' || pattern[p] == text[v] {
    } else if pattern[p] == '[' {
      ClassAt(pattern, text, p, v);
    } else if pattern[p] == '*' {
      StarAt(pattern, text, p, v);
    }
  }

  lemma ClassAt(pattern: string, text: string, p: nat, v: nat)
    requires p < |pattern| && v < |text| && pattern[p] == '[' != text[v]
    ensures
      var here, item := LiteralFirst(pattern[p..], text[v..]), Item(pattern, text, p, v);
      here == (item.Some? && LiteralFirst(pattern[item.value..], text[v + 1..]))
  {
    hide InClass;
    var ps, ts := pattern[p..], text[v..];
    assert ps[0] == pattern[p] && ts[0] == text[v];
    assert ps[1..] == pattern[p + 1..] && ts[1..] == text[v + 1..];
    var end := Close(pattern[p + 1..]);
    if end.Some? {
      assert ps[1..end.value + 1] == pattern[p + 1..p + 1 + end.value];
      assert ps[end.value + 2..] == pattern[p + end.value + 2..];
    }
  }

  lemma StarAt(pattern: string, text: string, p: nat, v: nat)
    requires p < |pattern| && v < |text|
    ensures FromOn(pattern, text, p + 1, v) <==>
            exists k | 0 <= k <= |text[v..]| :: LiteralFirst(pattern[p..][1..], text[v..][k..])
  {
    assert pattern[p..][1..] == pattern[p + 1..];
    if FromOn(pattern, text, p + 1, v) {
      var a :| v <= a <= |text| && LiteralFirst(pattern[p + 1..], text[a..]);
      assert text[v..][a - v..] == text[a..];
    }
    if k :| 0 <= k <= |text[v..]| && LiteralFirst(pattern[p..][1..], text[v..][k..]) {
      assert text[v..][k..] == text[v + k..];
      assert LiteralFirst(pattern[p + 1..], text[v + k..]);
    }
  }

  /** Where an item goes on does not depend on the byte it takes, for texts without `[`. */
  lemma ItemNext(pattern: string, text: string, p: nat, v: nat, a: nat)
    requires p < |pattern| && v < |text| && a < |text| && '[' !in text
    requires Item(pattern, text, p, v).Some? && Item(pattern, text, p, a).Some?
    ensures Item(pattern, text, p, v) == Item(pattern, text, p, a)
  {}

  /** One item of the pattern consumed one byte: later alignments have moved on as well. */
  lemma StepCovers(pattern: string, text: string, p: nat, v: nat)
    requires p < |pattern| && v < |text| && '[' !in text && Item(pattern, text, p, v).Some?
    requires FromOn(pattern, text, p, v)
    ensures FromOn(pattern, text, Item(pattern, text, p, v).value, v + 1)
  {
    var p' := Item(pattern, text, p, v).value;
    var a :| v <= a <= |text| && LiteralFirst(pattern[p..], text[a..]);
    if a == |text| {
      EmptyTextMatch(pattern[p..]);
      assert pattern[p..][0] == '*' && pattern[p..][1..] == pattern[p + 1..] == pattern[p'..];
      EmptyTextMatch(pattern[p + 1..]);
      assert text[a..] == [];
    } else {
      LiteralFirstAt(pattern, text, p, a);
      if Item(pattern, text, p, a).Some? {
        ItemNext(pattern, text, p, v, a);
        assert LiteralFirst(pattern[p'..], text[a + 1..]);
      } else {
        var k :| a <= k <= |text| && LiteralFirst(pattern[p + 1..], text[k..]);
        assert text[v] == '*' && a != v;
      }
    }
  }

  lemma StepKeepsCovered(pattern: string, text: string, p: nat, v: nat, star: Option<nat>, retry: nat)
    requires p < |pattern| && v < |text| && '[' !in text && Item(pattern, text, p, v).Some?
    requires (star.Some? ==> star.value < |pattern|) && Covered(pattern, text, p, v, star, retry)
    ensures Covered(pattern, text, Item(pattern, text, p, v).value, v + 1, star, retry)
  {
    if Later(pattern, text, star, retry) {
      StepCovers(pattern, text, p, v);
    }
  }

  lemma ClosedSuffix(pattern: string, text: string, p: nat, v: nat)
    requires p < |pattern| && v < |text| && '[' !in text && Closed(pattern[p..])
    ensures Item(pattern, text, p, v).Some? ==> Closed(pattern[Item(pattern, text, p, v).value..])
    ensures pattern[p] == '[' ==> Close(pattern[p + 1..]).Some?
    ensures pattern[p] == '*' ==> Closed(pattern[p + 1..])
  {
    hide InClass;
    assert pattern[p..][1..] == pattern[p + 1..];
    if pattern[p] == '[' {
      var end := Close(pattern[p + 1..]).value;
      assert pattern[p..][end + 2..] == pattern[p + end + 2..];
    }
  }

  /** From any point of the scan: it accepts exactly when the rest matches here or at a later end of the
      last star. */
  lemma {:induction false} ScanFrom(pattern: string, text: string, p: nat, v: nat, star: Option<nat>, retry: nat)
    requires p <= |pattern| && retry <= v <= |text| && (star.Some? ==> star.value < |pattern|)
    requires '[' !in text && Closed(pattern[p..]) && (star.Some? ==> Closed(pattern[star.value + 1..]))
    requires Covered(pattern, text, p, v, star, retry)
    ensures Scan(pattern, text, p, v, star, retry) ==
            (LiteralFirst(pattern[p..], text[v..]) || Later(pattern, text, star, retry))
    decreases |text| - retry, |pattern| - p
  {
    if v == |text| {
      EmptyTextMatch(pattern[p..]);
      assert text[v..] == [];
    } else if p == |pattern| {
      Retry(pattern, text, p, v, star, retry);
    } else {
      LiteralFirstAt(pattern, text, p, v);
      ClosedSuffix(pattern, text, p, v);
      if Item(pattern, text, p, v).Some? {
        StepKeepsCovered(pattern, text, p, v, star, retry);
        ScanFrom(pattern, text, Item(pattern, text, p, v).value, v + 1, star, retry);
      } else if pattern[p] == '*' {
        NewStar(pattern, text, p, v, star, retry);
        ScanFrom(pattern, text, p + 1, v, Some(p), v);
      } else {
        Retry(pattern, text, p, v, star, retry);
      }
    }
  }

  /** Where the rest cannot match here, only later ends of the last star are left. */
  lemma {:induction false} Retry(pattern: string, text: string, p: nat, v: nat, star: Option<nat>, retry: nat)
    requires p <= |pattern| && retry <= v < |text| && (star.Some? ==> star.value < |pattern|)
    requires '[' !in text && (star.Some? ==> Closed(pattern[star.value + 1..]))
    ensures star.Some? ==>
      Later(pattern, text, star, retry) == Scan(pattern, text, star.value + 1, retry + 1, star, retry + 1)
    decreases |text| - retry - 1, |pattern| + 1
  {
    hide Scan, LiteralFirst;
    if star.Some? {
      if Later(pattern, text, star, retry + 1) {
        var k :| retry + 1 < k <= |text| && LiteralFirst(pattern[star.value + 1..], text[k..]);
      }
      ScanFrom(pattern, text, star.value + 1, retry + 1, star, retry + 1);
    }
  }

  /** Passing a new star forgets the old one; by `Covered` the new one can do all the old one could. */
  lemma NewStar(pattern: string, text: string, p: nat, v: nat, star: Option<nat>, retry: nat)
    requires p < |pattern| && retry <= v < |text| && (star.Some? ==> star.value < |pattern|)
    requires pattern[p] == '*' && text[v] != '*' && '[' !in text
    requires Covered(pattern, text, p, v, star, retry)
    ensures Covered(pattern, text, p + 1, v, Some(p), v)
    ensures (LiteralFirst(pattern[p..], text[v..]) || Later(pattern, text, star, retry)) ==
            (LiteralFirst(pattern[p + 1..], text[v..]) || Later(pattern, text, Some(p), v))
  {
    LiteralFirstAt(pattern, text, p, v);
    if FromOn(pattern, text, p, v) {
      var a :| v <= a <= |text| && LiteralFirst(pattern[p..], text[a..]);
      assert FromOn(pattern, text, p + 1, v) by {
        if a == |text| {
          EmptyTextMatch(pattern[p..]);
          EmptyTextMatch(pattern[p + 1..]);
          assert text[a..] == [];
        } else {
          LiteralFirstAt(pattern, text, p, a);
          if text[a] == '*' {
            assert LiteralFirst(pattern[p + 1..], text[a + 1..]);
          }
        }
      }
    }
  }

  /** Retrying only the last star is complete for names without `[`. */
  lemma MatchesIsLiteralFirst(pattern: string, text: string)
    requires Closed(pattern) && '[' !in text
    ensures Matches(pattern, text) == LiteralFirst(pattern, text)
  {
    assert pattern[0..] == pattern && text[0..] == text;
    ScanFrom(pattern, text, 0, 0, None, 0);
  }

  // ----- the scan against the declarative reading -----

  lemma {:induction false} GlobSkips(pattern: string, text: string, k: nat)
    requires pattern != [] && pattern[0] == '*' && k <= |text| && Glob(pattern[1..], text[k..])
    ensures Glob(pattern, text)
    decreases k
  {
    if k == 0 {
      assert text[0..] == text;
    } else {
      assert text[1..][k - 1..] == text[k..];
      GlobSkips(pattern, text[1..], k - 1);
    }
  }

  lemma {:induction false} GlobStarEnds(pattern: string, text: string) returns (k: nat)
    requires pattern != [] && pattern[0] == '*' && Glob(pattern, text)
    ensures k <= |text| && Glob(pattern[1..], text[k..])
    decreases |text|
  {
    if Glob(pattern[1..], text) {
      k := 0;
      assert text[0..] == text;
    } else {
      var j := GlobStarEnds(pattern, text[1..]);
      k := j + 1;
      assert text[1..][j..] == text[k..];
    }
  }

  lemma {:induction false} LiteralFirstSound(pattern: string, text: string)
    requires '[' !in text && LiteralFirst(pattern, text)
    ensures Glob(pattern, text)
    decreases |pattern|
  {
    if pattern != [] {
      if text == [] {
        LiteralFirstSound(pattern[1..], text);
      } else if pattern[0] == '?' || pattern[0] == text[0] {
        LiteralFirstSound(pattern[1..], text[1..]);
        if pattern[0] == '*' {
          GlobSkips(pattern, text, 1);
        }
      } else if pattern[0] == '[' {
        LiteralFirstSound(pattern[Close(pattern[1..]).value + 2..], text[1..]);
      } else {
        var k :| 0 <= k <= |text| && LiteralFirst(pattern[1..], text[k..]);
        LiteralFirstSound(pattern[1..], text[k..]);
        GlobSkips(pattern, text, k);
      }
    }
  }

  lemma {:induction false} LiteralFirstComplete(pattern: string, text: string)
    requires '[' !in text && '*' !in text && Glob(pattern, text)
    ensures LiteralFirst(pattern, text)
    decreases |pattern|
  {
    if pattern != [] {
      if pattern[0] == '*' {
        var k := GlobStarEnds(pattern, text);
        LiteralFirstComplete(pattern[1..], text[k..]);
      } else if pattern[0] == '[' {
        LiteralFirstComplete(pattern[Close(pattern[1..]).value + 2..], text[1..]);
      } else {
        LiteralFirstComplete(pattern[1..], text[1..]);
      }
    }
  }

  /** The scan never accepts what the pattern does not mean (for names without `[`). */
  lemma MatchesSound(pattern: string, text: string)
    requires Closed(pattern) && '[' !in text && Matches(pattern, text)
    ensures Glob(pattern, text)
  {
    MatchesIsLiteralFirst(pattern, text);
    LiteralFirstSound(pattern, text);
  }

  lemma MatchesIsGlob(pattern: string, text: string)
    requires Closed(pattern) && '[' !in text && '*' !in text
    ensures Matches(pattern, text) == Glob(pattern, text)
  {
    MatchesIsLiteralFirst(pattern, text);
    if Matches(pattern, text) {
      LiteralFirstSound(pattern, text);
    }
    if Glob(pattern, text) {
      LiteralFirstComplete(pattern, text);
    }
  }

  // ----- names on which the scan goes wrong -----

  function Questions(n: nat): (s: string)
    ensures |s| == n && forall i | 0 <= i < n :: s[i] == '?'
  {
    if n == 0 then [] else ['?'] + Questions(n - 1)
  }

  predicate Plain(s: string) {
    '*' !in s && '[' !in s
  }

  lemma {:induction false} PlainPrefix(s: string, pattern: string, text: string)
    requires Plain(s) && Closed(pattern) && Glob(pattern, text)
    ensures Closed(s + pattern) && Glob(s + pattern, s + text)
  {
    if s == [] {
      assert s + pattern == pattern && s + text == text;
    } else {
      PlainPrefix(s[1..], pattern, text);
      assert (s + pattern)[1..] == s[1..] + pattern && (s + text)[1..] == s[1..] + text;
    }
  }

  lemma {:induction false} QuestionsMatch(text: string)
    ensures Closed(Questions(|text|)) && Glob(Questions(|text|), text)
  {
    if text != [] {
      QuestionsMatch(text[1..]);
    }
  }

  /** With no star passed, items that take one byte each keep both positions equal. */
  lemma {:induction false} ScanStraight(pattern: string, text: string, lo: nat, hi: nat)
    requires lo <= hi <= |text| && hi <= |pattern|
    requires forall j | lo <= j < hi :: pattern[j] == '?' || pattern[j] == text[j]
    ensures Scan(pattern, text, lo, lo, None, 0) == Scan(pattern, text, hi, hi, None, 0)
    decreases hi - lo
  {
    if lo < hi {
      ScanStraight(pattern, text, lo + 1, hi);
    }
  }

  /** A closed pattern that means the text but that the scan rejects, built at the first odd byte. */
  lemma BreakAtStar(prefix: string, rest: string) returns (pattern: string)
    requires Plain(prefix)
    ensures Closed(pattern) && Glob(pattern, prefix + "*" + rest) && !Matches(pattern, prefix + "*" + rest)
  {
    var text := prefix + "*" + rest;
    var tail := "*" + rest;
    var questions := Questions(|tail|);
    QuestionsMatch(tail);
    assert ("*" + questions)[1..] == questions;
    PlainPrefix(prefix, "*" + questions, tail);
    pattern := prefix + ("*" + questions);
    assert text == prefix + tail;
    ScanStraight(pattern, text, 0, |text|);
    assert pattern[|text|..][0] == '?';
  }

  lemma BreakAtBracket(prefix: string, rest: string) returns (pattern: string)
    requires Plain(prefix)
    ensures Closed(pattern) && Glob(pattern, prefix + "[" + rest) && !Matches(pattern, prefix + "[" + rest)
  {
    var text := prefix + "[" + rest;
    var tail := "[" + rest;
    var x := if rest != [] && rest[0] == 'a' then 'b' else 'a';
    var members := [x, '['];
    var item := "[" + members + "]" + Questions(|rest|);
    QuestionsMatch(rest);
    assert item[1..] == members + "]" + Questions(|rest|);
    assert item[1..][0] == x && item[1..][1] == '[' && item[1..][2] == ']';
    assert item[1..][1..][1..][0] == ']';
    assert Close(item[1..]) == Some(2);
    assert item[1..][..2] == item[1..3] == members && item[4..] == Questions(|rest|);
    assert members[1..] == ['['];
    assert tail[1..] == rest;
    PlainPrefix(prefix, item, tail);
    pattern := prefix + item;
    assert text == prefix + tail;
    var i := |prefix|;
    assert pattern[i] == '[' == text[i] && pattern[i + 1] == x;
    ScanStraight(pattern, text, 0, i + 1);
    if i + 1 == |text| {
      assert pattern[i + 1..][0] == x;
    } else {
      assert text[i + 1] == rest[0];
    }
  }

  /** The exact condition: the scan agrees with the meaning of every closed pattern on a name if and only
      if the name holds neither `*` nor `[`. */
  lemma AgreesExactly(text: string)
    ensures (forall pattern | Closed(pattern) :: Matches(pattern, text) == Glob(pattern, text)) <==> Plain(text)
  {
    if Plain(text) {
      forall pattern | Closed(pattern)
        ensures Matches(pattern, text) == Glob(pattern, text)
      {
        MatchesIsGlob(pattern, text);
      }
    } else {
      var i := FirstOdd(text);
      var prefix, rest := text[..i], text[i + 1..];
      var pattern;
      if text[i] == '*' {
        assert text == prefix + "*" + rest;
        pattern := BreakAtStar(prefix, rest);
      } else {
        assert text == prefix + "[" + rest;
        pattern := BreakAtBracket(prefix, rest);
      }
    }
  }

  lemma FirstOdd(text: string) returns (i: nat)
    requires !Plain(text)
    ensures i < |text| && (text[i] == '*' || text[i] == '[') && Plain(text[..i])
  {
    i := 0;
    while text[i] != '*' && text[i] != '['
      invariant i < |text| && Plain(text[..i])
      decreases |text| - i
    {
      assert text[..i + 1] == text[..i] + [text[i]];
      assert text[..|text|] == text;
      i := i + 1;
    }
  }
}
