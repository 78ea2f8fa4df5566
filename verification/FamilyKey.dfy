/** The families of formulae that may replace each other's links. */
module FamilyKeys {
  import opened Text

  predicate IsVersion(s: string) {
    s != "" && forall c | c in s :: IsDigit(c) || c == '.'
  }

  /** What is stripped: `-full`, or an at sign and a version. */
  predicate IsSuffix(t: string) {
    t == "-full" || (t != "" && t[0] == '@' && IsVersion(t[1..]))
  }

  /** `-full`, or an at sign and after it at least one character, each a digit or a dot. */
  lemma SuffixesExact(t: string)
    ensures IsSuffix(t) <==>
            t == ['-', 'f', 'u', 'l', 'l'] ||
            (|t| > 1 && t[0] == '@' && forall i | 1 <= i < |t| :: '0' <= t[i] <= '9' || t[i] == '.')
  {
    if t != "" {
      forall i | 1 <= i < |t|
        ensures t[i] == t[1..][i - 1] && t[i] in t[1..]
      {}
      assert forall c | c in t[1..] :: exists i | 1 <= i < |t| :: t[i] == c;
    }
  }

  predicate EndsIn(s: string, t: string) {
    |t| <= |s| && s[|s| - |t|..] == t
  }

  ghost predicate Reduced(s: string) {
    forall t | IsSuffix(t) :: !EndsIn(s, t)
  }

  ghost predicate AllSuffixes(parts: seq<string>) {
    forall i | 0 <= i < |parts| :: IsSuffix(parts[i])
  }

  function Appended(s: string, parts: seq<string>): string {
    if parts == [] then s else Appended(s, parts[..|parts| - 1]) + parts[|parts| - 1]
  }

  /** The name is the stem followed by suffixes, and the stem ends in none. */
  ghost predicate IsStem(name: string, stem: string) {
    Reduced(stem) && exists parts :: AllSuffixes(parts) && name == Appended(stem, parts)
  }

  // ----- no name ends in two different suffixes -----

  lemma VersionHasNoAt(s: string)
    requires IsVersion(s)
    ensures '@' !in s
  {}

  lemma SuffixIsUnique(s: string, t: string, u: string)
    requires IsSuffix(t) && IsSuffix(u) && EndsIn(s, t) && EndsIn(s, u)
    ensures t == u
  {
    assert t[|t| - 1] == s[|s| - 1] == u[|u| - 1];
    if t[0] == '@' && u[0] == '@' {
      assert t[|t| - 1] in t[1..] && u[|u| - 1] in u[1..];
      AtsCoincide(s, t, u);
      AtsCoincide(s, u, t);
    } else {
      LastOfSuffix(t);
      LastOfSuffix(u);
    }
  }

  lemma LastOfSuffix(t: string)
    requires IsSuffix(t)
    ensures t[|t| - 1] == 'l' <==> t == "-full"
  {
    if t != "-full" {
      assert t[|t| - 1] == t[1..][|t| - 2];
      assert t[|t| - 1] in t[1..];
    }
  }

  lemma AtsCoincide(s: string, t: string, u: string)
    requires EndsIn(s, t) && EndsIn(s, u) && t != "" && u != ""
    requires t[0] == '@' && IsVersion(u[1..]) && u[0] == '@'
    ensures |t| >= |u|
  {
    VersionHasNoAt(u[1..]);
    ShorterWithin(s, t, u);
  }

  lemma ShorterWithin(s: string, t: string, u: string)
    requires EndsIn(s, t) && EndsIn(s, u) && t != ""
    ensures |t| < |u| ==> t[0] in u[1..]
  {}

  /** The stem of a name is unique. */
  lemma {:induction false} StemIsUnique(name: string, stem: string, parts: seq<string>, stem': string, parts': seq<string>)
    requires Reduced(stem) && AllSuffixes(parts) && name == Appended(stem, parts)
    requires Reduced(stem') && AllSuffixes(parts') && name == Appended(stem', parts')
    ensures stem == stem' && parts == parts'
    decreases |parts|
  {
    if parts != [] && parts' != [] {
      var t, t' := parts[|parts| - 1], parts'[|parts'| - 1];
      var front, front' := parts[..|parts| - 1], parts'[..|parts'| - 1];
      EndsInLast(Appended(stem, front), t);
      EndsInLast(Appended(stem', front'), t');
      SuffixIsUnique(name, t, t');
      assert name[..|name| - |t|] == Appended(stem, front) == Appended(stem', front');
      StemIsUnique(Appended(stem, front), stem, front, stem', front');
      assert parts == front + [t] && parts' == front' + [t'];
    } else if parts != [] {
      EndsInLast(Appended(stem, parts[..|parts| - 1]), parts[|parts| - 1]);
    } else if parts' != [] {
      EndsInLast(Appended(stem', parts'[..|parts'| - 1]), parts'[|parts'| - 1]);
    }
  }

  lemma EndsInLast(s: string, t: string)
    ensures EndsIn(s + t, t)
  {}

  // ----- stripping -----

  /** `str::rfind` of an at sign. */
  function LastAt(s: string): (at: Option<nat>)
    ensures at.Some? ==> at.value < |s| && s[at.value] == '@' && '@' !in s[at.value + 1..]
    ensures at.None? ==> '@' !in s
  {
    if s == "" then None
    else if s[|s| - 1] == '@' then Some(|s| - 1)
    else
      var at := LastAt(s[..|s| - 1]);
      assert at.Some? ==> s[at.value + 1..] == s[..|s| - 1][at.value + 1..] + [s[|s| - 1]];
      at
  }

  function StripFull(s: string): string {
    if EndsIn(s, "-full") then s[..|s| - 5] else s
  }

  function StripVersion(s: string): string {
    var at := LastAt(s);
    if at.Some? && IsVersion(s[at.value + 1..]) then s[..at.value] else s
  }

  lemma StripFullStep(s: string)
    ensures StripFull(s) == s ==> !EndsIn(s, "-full")
    ensures StripFull(s) != s ==> s == StripFull(s) + "-full"
  {}

  /** The version after the last at sign is all a name could end in. */
  lemma StripVersionStep(s: string)
    ensures StripVersion(s) == s ==> forall t | IsSuffix(t) && EndsIn(s, t) :: t == "-full"
    ensures StripVersion(s) != s ==> exists t :: IsSuffix(t) && s == StripVersion(s) + t
  {
    var at := LastAt(s);
    forall t | IsSuffix(t) && EndsIn(s, t) && t != "-full"
      ensures StripVersion(s) != s
    {
      VersionHasNoAt(t[1..]);
      assert s[|s| - |t|] == '@';
      assert s[|s| - |t| + 1..] == t[1..];
      AtIsLast(s, |s| - |t|);
    }
    if StripVersion(s) != s {
      var t := s[at.value..];
      assert t[1..] == s[at.value + 1..];
      assert s == s[..at.value] + t;
      assert IsSuffix(t);
    }
  }

  lemma AtIsLast(s: string, i: nat)
    requires i < |s| && s[i] == '@' && '@' !in s[i + 1..]
    ensures LastAt(s) == Some(i)
  {}

  /** Suffixes at the end of what is left are suffixes at the end of the name. */
  ghost predicate LedTo(name: string, current: string) {
    exists parts :: AllSuffixes(parts) && name == Appended(current, parts)
  }

  lemma OneLess(name: string, current: string, less: string, t: string)
    requires LedTo(name, current) && IsSuffix(t) && current == less + t
    ensures LedTo(name, less)
  {
    var parts :| AllSuffixes(parts) && name == Appended(current, parts);
    AppendedBefore(less, t, parts);
    assert AllSuffixes([t] + parts);
  }

  lemma {:induction false} AppendedBefore(less: string, t: string, parts: seq<string>)
    ensures Appended(less, [t] + parts) == Appended(less + t, parts)
  {
    var all := [t] + parts;
    if parts == [] {
      assert all[..0] == [] && all[0] == t;
    } else {
      assert all[..|all| - 1] == [t] + parts[..|parts| - 1];
      AppendedBefore(less, t, parts[..|parts| - 1]);
    }
  }

  /** Strips until a round changes nothing; what is left is the stem. */
  method NormalizeFamilyKey(name: string) returns (key: string)
    ensures IsStem(name, key)
  {
    hide LedTo, Appended, IsVersion, EndsIn;
    key := name;
    NothingStripped(name);
    while true
      invariant LedTo(name, key)
      decreases |key|
    {
      var before := key;
      StripFullStep(before);
      var current := StripFull(before);
      if current != before {
        OneLess(name, before, current, "-full");
      }
      StripVersionStep(current);
      var stripped := StripVersion(current);
      if stripped != current {
        var t :| IsSuffix(t) && current == stripped + t;
        OneLess(name, current, stripped, t);
      }
      key := stripped;
      if key == before {
        StemFound(name, key);
        return;
      }
    }
  }

  lemma NothingStripped(name: string)
    ensures LedTo(name, name)
  {
    assert AllSuffixes([]) && name == Appended(name, []);
  }

  lemma StemFound(name: string, key: string)
    requires LedTo(name, key) && Reduced(key)
    ensures IsStem(name, key)
  {}

  /** A stem is its own stem, and nothing else is. */
  lemma KeyIsIdempotent(name: string, key: string, again: string)
    requires IsStem(name, key) && IsStem(key, again)
    ensures again == key
  {}

  lemma KeyIsUnique(name: string, key: string, key': string)
    requires IsStem(name, key) && IsStem(name, key')
    ensures key == key'
  {
    var parts :| AllSuffixes(parts) && name == Appended(key, parts);
    var parts' :| AllSuffixes(parts') && name == Appended(key', parts');
    StemIsUnique(name, key, parts, key', parts');
  }

  ghost predicate SameFamily(a: string, b: string) {
    exists key :: IsStem(a, key) && IsStem(b, key)
  }

  lemma {:induction false} StemExists(name: string)
    ensures exists key :: IsStem(name, key)
    decreases |name|
  {
    if t :| IsSuffix(t) && EndsIn(name, t) {
      var less := name[..|name| - |t|];
      assert name == less + t;
      StemExists(less);
      var key :| IsStem(less, key);
      SuffixKeepsFamily(less, t, key);
    } else {
      NothingStripped(name);
      StemFound(name, name);
    }
  }

  /** A suffix more changes nothing about the stem. */
  lemma SuffixKeepsFamily(name: string, t: string, key: string)
    requires IsSuffix(t) && IsStem(name, key)
    ensures IsStem(name + t, key)
  {
    var parts :| AllSuffixes(parts) && name == Appended(key, parts);
    assert (parts + [t])[..|parts|] == parts;
    assert AllSuffixes(parts + [t]) && name + t == Appended(key, parts + [t]);
  }

  /** Sharing a key is an equivalence. */
  lemma FamiliesPartition(a: string, b: string, c: string)
    ensures SameFamily(a, a)
    ensures SameFamily(a, b) ==> SameFamily(b, a)
    ensures SameFamily(a, b) && SameFamily(b, c) ==> SameFamily(a, c)
  {
    hide IsStem;
    StemExists(a);
    if SameFamily(a, b) && SameFamily(b, c) {
      var key :| IsStem(a, key) && IsStem(b, key);
      var key' :| IsStem(b, key') && IsStem(c, key');
      KeyIsUnique(b, key, key');
    }
  }

  datatype Formula = Formula(name: string, fullName: string)

  /** Another formula of the family. */
  ghost predicate IsRelative(formula: Formula, other: Formula) {
    other.name != formula.name && SameFamily(other.name, formula.name)
  }

  /** The first relative under its full name, which is not the formula's own. */
  ghost predicate IsSibling(catalog: seq<Formula>, formula: Formula, i: nat)
    requires i < |catalog|
  {
    && IsRelative(formula, catalog[i]) && catalog[i].fullName != formula.fullName
    && forall j | 0 <= j < i && IsRelative(formula, catalog[j]) :: catalog[j].fullName != catalog[i].fullName
  }

  lemma SameKeySameFamily(a: string, key: string, b: string, key': string)
    requires IsStem(a, key) && IsStem(b, key')
    ensures SameFamily(a, b) <==> key == key'
  {
    if SameFamily(a, b) {
      var k :| IsStem(a, k) && IsStem(b, k);
      KeyIsUnique(a, key, k);
      KeyIsUnique(b, key', k);
    }
  }

  /** The names of the catalog's other formulae of the family, each full name once. */
  method FamilySiblingNames(catalog: seq<Formula>, formula: Formula) returns (names: set<string>)
    ensures forall n :: n in names <==> exists i | 0 <= i < |catalog| :: catalog[i].name == n && IsSibling(catalog, formula, i)
  {
    hide IsStem, SameFamily;
    var key := NormalizeFamilyKey(formula.name);
    names := {};
    var seenFull := {formula.fullName};
    for i := 0 to |catalog|
      invariant forall f :: f in seenFull <==>
                  f == formula.fullName || exists j | 0 <= j < i :: catalog[j].fullName == f && IsRelative(formula, catalog[j])
      invariant forall n :: n in names <==>
                  exists j | 0 <= j < i :: catalog[j].name == n && IsSibling(catalog, formula, j)
    {
      var other := catalog[i];
      if other.name != formula.name {
        var otherKey := NormalizeFamilyKey(other.name);
        SameKeySameFamily(other.name, otherKey, formula.name, key);
        if otherKey == key && other.fullName !in seenFull {
          seenFull := seenFull + {other.fullName};
          names := names + {other.name};
        }
      }
    }
  }
}
