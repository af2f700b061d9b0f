/** Metric and label names: the sanitizer, its slow path, and the names built from it. */
module Sanitize {
  import opened Sequences
  import opened Text

  predicate IsAsciiAlphabetic(c: char) {
    'a' <= c <= 'z' || 'A' <= c <= 'Z'
  }

  predicate IsFirst(c: char) {
    IsAsciiAlphabetic(c) || c == '_' || c == ':'
  }

  predicate IsRest(c: char) {
    IsFirst(c) || '0' <= c <= '9'
  }

  /** Text matching `[a-zA-Z_:][a-zA-Z0-9_:]*`, or nothing. */
  ghost predicate IsName(s: string) {
    s != "" ==> IsFirst(s[0]) && forall i | 0 <= i < |s| :: IsRest(s[i])
  }

  /** `contains("__")` */
  ghost predicate HasDouble(s: string) {
    exists i :: 0 <= i < |s| - 1 && s[i] == '_' && s[i + 1] == '_'
  }

  // ---------- Functions for the loops ----------

  /** The scan of the characters after the first; true asks for sanitization. */
  function Scan(s: string, prevUnderscore: bool): bool {
    if s == "" then false
    else if s[0] == '_' then prevUnderscore || Scan(s[1..], true)
    else !(IsRest(s[0])) || Scan(s[1..], false)
  }

  predicate NeedsSanitization(name: string) {
    name != "" && (!IsFirst(name[0]) || Scan(name[1..], false))
  }

  function CleanRest(c: char): char {
    if IsRest(c) then c else '_'
  }

  /** Invalid characters replaced by underscores. */
  function Cleaned(name: string): (r: string)
    ensures |r| == |name|
    ensures forall i | 0 <= i < |name| :: r[i] == if i == 0 && !IsFirst(name[0]) then '_' else CleanRest(name[i])
  {
    seq(|name|, i requires 0 <= i < |name| => if i == 0 && !IsFirst(name[0]) then '_' else CleanRest(name[i]))
  }

  /** One pass over the text that keeps one underscore of every run. */
  function Collapse(s: string): string {
    if |s| <= 1 then s
    else if s[0] == '_' && s[1] == '_' then Collapse(s[1..])
    else [s[0]] + Collapse(s[1..])
  }

  function Slow(name: string): string {
    Collapse(Cleaned(name))
  }

  function Sanitized(name: string): string {
    if NeedsSanitization(name) then Slow(name) else name
  }

  // ---------- Runs of underscores ----------

  /** Length of the run of underscores the text starts with. */
  function Lead(s: string): nat {
    if s != "" && s[0] == '_' then 1 + Lead(s[1..]) else 0
  }

  function Max(a: nat, b: nat): nat {
    if a < b then b else a
  }

  function LongestRun(s: string): nat {
    if s == "" then 0 else Max(Lead(s), LongestRun(s[1..]))
  }

  function Halved(s: string): string {
    Replace(s, "__", "_")
  }

  /** Least `k` with `n <= 2^k`. */
  function Log2Ceil(n: nat): nat {
    if n <= 1 then 0 else 1 + Log2Ceil((n + 1) / 2)
  }

  lemma DoubleHead(s: string)
    ensures "__" <= s <==> |s| >= 2 && s[0] == '_' && s[1] == '_'
  {
    if |s| >= 2 && s[0] == '_' && s[1] == '_' {
      assert s[..2] == "__";
    }
  }

  /** One replacement pass halves every run of underscores, rounding up. */
  lemma {:induction false} PassHalvesRuns(s: string)
    ensures Lead(Halved(s)) == (Lead(s) + 1) / 2
    ensures LongestRun(Halved(s)) == (LongestRun(s) + 1) / 2
    decreases |s|
  {
    if s != "" {
      DoubleHead(s);
      if "__" <= s {
        PassHalvesRuns(s[2..]);
        assert s[1..][1..] == s[2..];
        assert Halved(s) == "_" + Halved(s[2..]);
        assert Halved(s)[1..] == Halved(s[2..]);
      } else {
        PassHalvesRuns(s[1..]);
        assert Halved(s)[1..] == Halved(s[1..]);
      }
    }
  }

  lemma HasDoubleTail(s: string)
    requires s != ""
    ensures HasDouble(s) <==> HasDouble(s[1..]) || (|s| >= 2 && s[0] == '_' && s[1] == '_')
  {
    if HasDouble(s[1..]) {
      var i :| 0 <= i < |s[1..]| - 1 && s[1..][i] == '_' && s[1..][i + 1] == '_';
      assert s[i + 1] == '_' && s[i + 1 + 1] == '_';
    }
    if HasDouble(s) {
      var i :| 0 <= i < |s| - 1 && s[i] == '_' && s[i + 1] == '_';
      if i > 0 {
        assert s[1..][i - 1] == '_' && s[1..][i - 1 + 1] == '_';
      }
    }
    if |s| >= 2 && s[0] == '_' && s[1] == '_' {
      assert s[0] == '_' && s[0 + 1] == '_';
    }
  }

  lemma {:induction false} DoubleIffLongRun(s: string)
    ensures HasDouble(s) <==> LongestRun(s) >= 2
    ensures Lead(s) <= LongestRun(s)
  {
    if s != "" {
      DoubleIffLongRun(s[1..]);
      HasDoubleTail(s);
    }
  }

  lemma CollapseHead(s: string)
    ensures (Collapse(s) == "" <==> s == "") && (s != "" ==> Collapse(s)[0] == s[0])
  {}

  /** A replacement pass does not change what the text collapses to. */
  lemma {:induction false} PassKeepsCollapse(s: string)
    ensures Collapse(Halved(s)) == Collapse(s)
    ensures s != "" ==> Halved(s) != "" && Halved(s)[0] == s[0]
    decreases |s|
  {
    if s != "" {
      DoubleHead(s);
      if "__" <= s {
        PassKeepsCollapse(s[2..]);
        assert s[1..][1..] == s[2..];
        assert Halved(s)[1..] == Halved(s[2..]);
        CollapseAfterUnderscore(s[2..], Halved(s[2..]));
        assert "_" + s[2..] == s[1..];
      } else {
        PassKeepsCollapse(s[1..]);
        assert Halved(s)[1..] == Halved(s[1..]);
      }
    }
  }

  lemma CollapseAfterUnderscore(s: string, t: string)
    requires Collapse(s) == Collapse(t) && (s == "" <==> t == "") && (s != "" ==> s[0] == t[0])
    ensures Collapse("_" + s) == Collapse("_" + t)
  {
    assert ("_" + s)[1..] == s && ("_" + t)[1..] == t;
  }

  lemma {:induction false} CollapseIsIdentityIff(s: string)
    ensures Collapse(s) == s <==> !HasDouble(s)
    ensures |Collapse(s)| <= |s|
  {
    if |s| >= 2 {
      CollapseIsIdentityIff(s[1..]);
      HasDoubleTail(s);
      if !(s[0] == '_' && s[1] == '_') {
        assert Collapse(s)[1..] == Collapse(s[1..]);
        assert s == [s[0]] + s[1..];
      }
    }
  }

  /** What collapsing leaves: no double underscore, and only characters that were there. */
  lemma {:induction false} CollapseIsClean(s: string)
    ensures LongestRun(Collapse(s)) <= 1
    ensures forall i | 0 <= i < |Collapse(s)| :: Collapse(s)[i] in s
  {
    if |s| == 1 {
      assert Lead(s[1..]) == 0 && LongestRun(s[1..]) == 0;
    } else if |s| >= 2 {
      CollapseIsClean(s[1..]);
      CollapseHead(s[1..]);
      if !(s[0] == '_' && s[1] == '_') {
        var r := Collapse(s[1..]);
        assert ([s[0]] + r)[1..] == r;
        assert Lead([s[0]] + r) <= 1 by {
          if s[0] == '_' {
            assert r[0] != '_';
          }
        }
      }
    }
  }

  // ---------- The slow path ----------

  /**
   The collapsing loop of the source. It computes the one-pass collapse, and the number of
   passes is exactly the logarithm, rounded up, of the longest run of underscores.
   */
  method CollapseByReplacing(s: string) returns (result: string, ghost passes: nat)
    ensures result == Collapse(s)
    ensures passes == Log2Ceil(LongestRun(s))
  {
    result, passes := s, 0;
    DoubleIffLongRun(s);
    while ContainsDouble(result)
      invariant Collapse(result) == Collapse(s)
      invariant passes + Log2Ceil(LongestRun(result)) == Log2Ceil(LongestRun(s))
      decreases LongestRun(result)
    {
      DoubleIffLongRun(result);
      PassHalvesRuns(result);
      PassKeepsCollapse(result);
      result, passes := Replace(result, "__", "_"), passes + 1;
    }
    DoubleIffLongRun(result);
    CollapseIsIdentityIff(result);
  }

  predicate ContainsDouble(s: string)
    ensures ContainsDouble(s) <==> HasDouble(s)
  {
    exists i | 0 <= i < |s| - 1 :: s[i] == '_' && s[i + 1] == '_'
  }

  method SanitizeName(name: string) returns (r: string)
    ensures r == Sanitized(name)
  {
    var needs := false;
    if name != "" {
      if !IsFirst(name[0]) {
        needs := true;
      } else {
        var prevUnderscore, i := false, 1;
        while i < |name| && !needs
          invariant 1 <= i <= |name|
          invariant Scan(name[1..], false) == (needs || Scan(name[i..], prevUnderscore))
        {
          assert name[i..][1..] == name[i + 1..];
          if name[i] == '_' {
            needs := prevUnderscore;
            prevUnderscore := true;
          } else {
            prevUnderscore := false;
            needs := !IsRest(name[i]);
          }
          i := i + 1;
        }
      }
    }
    if !needs {
      return name;
    }
    r := "";
    if name != "" {
      r := if IsFirst(name[0]) then [name[0]] else "_";
    }
    for i := 1 to |name|
      invariant r == Cleaned(name)[..i]
    {
      r := r + [if IsRest(name[i]) then name[i] else '_'];
    }
    assert r == Cleaned(name);
    ghost var passes;
    r, passes := CollapseByReplacing(r);
  }

  // ---------- What the sanitizer promises ----------

  lemma CleanedIsName(name: string)
    ensures IsName(Cleaned(name))
    ensures IsName(name) ==> Cleaned(name) == name
  {}

  lemma SlowIsName(name: string)
    ensures IsName(Slow(name)) && !HasDouble(Slow(name))
  {
    var c := Cleaned(name);
    CleanedIsName(name);
    CollapseIsClean(c);
    CollapseHead(c);
    DoubleIffLongRun(Slow(name));
    forall i | 0 <= i < |Slow(name)|
      ensures IsRest(Slow(name)[i])
    {
      assert Slow(name)[i] in c;
    }
  }

  lemma {:induction false} ScanMeans(s: string, prevUnderscore: bool)
    ensures !Scan(s, prevUnderscore) <==>
            && (forall i | 0 <= i < |s| :: IsRest(s[i]))
            && !HasDouble(s)
            && !(prevUnderscore && s != "" && s[0] == '_')
  {
    if s != "" {
      ScanMeans(s[1..], s[0] == '_');
      HasDoubleTail(s);
      if forall i | 0 <= i < |s[1..]| :: IsRest(s[1..][i]) {
        assert forall i | 1 <= i < |s| :: s[i] == s[1..][i - 1];
      }
    }
  }

  /** The names the scan lets through although they contain a double underscore. */
  ghost predicate StartsWithLonePair(name: string) {
    && |name| >= 2 && name[0] == '_' && name[1] == '_'
    && IsName(name) && !HasDouble(name[1..])
  }

  /** The scan passes exactly the valid names without doubles, and the exceptional ones. */
  lemma PassesScanIff(name: string)
    ensures !NeedsSanitization(name) <==> (IsName(name) && !HasDouble(name)) || StartsWithLonePair(name)
  {
    if name != "" {
      ScanMeans(name[1..], false);
      HasDoubleTail(name);
      assert forall i | 1 <= i < |name| :: name[i] == name[1..][i - 1];
      if forall i | 0 <= i < |name[1..]| :: IsRest(name[1..][i]) {
        assert forall i | 1 <= i < |name| :: IsRest(name[i]);
      }
      if IsName(name) {
        assert forall i | 0 <= i < |name[1..]| :: IsRest(name[1..][i]);
      }
    }
  }

  /**
   The fast path agrees with the slow path on every name except, exactly, those that start
   with two underscores, not three, and are otherwise clean: these come back unchanged.
   */
  lemma FastPathAgreesIff(name: string)
    ensures Sanitized(name) == Slow(name) <==> !StartsWithLonePair(name)
  {
    PassesScanIff(name);
    CleanedIsName(name);
    CollapseIsIdentityIff(Cleaned(name));
    if StartsWithLonePair(name) {
      HasDoubleTail(name);
    }
  }

  /** The documentation says consecutive underscores are collapsed; here they are not. */
  lemma CollapsePromiseFails()
    ensures Sanitized("__a") == "__a" && Slow("__a") == "_a"
  {
    PassesScanIff("__a");
    var name := "__a";
    assert !HasDouble(name[1..]) by {
      assert name[1..] == "_a";
    }
    assert StartsWithLonePair(name);
    assert Cleaned(name) == name;
    assert name[1..] == "_a" && name[1..][1..] == "a";
    assert Collapse("_a") == "_a" by {
      assert "_a"[1..] == "a";
    }
  }

  /** The output is a valid name or empty; it has a double underscore only in the exception. */
  lemma SanitizedIsName(name: string)
    ensures IsName(Sanitized(name))
    ensures HasDouble(Sanitized(name)) <==> StartsWithLonePair(name)
    ensures Sanitized(name) == "" <==> name == ""
  {
    PassesScanIff(name);
    SlowIsName(name);
    CollapseHead(Cleaned(name));
    if StartsWithLonePair(name) {
      HasDoubleTail(name);
    }
  }

  /** The alphabet of the exposition format; digits may not come first. */
  predicate InAlphabet(c: char, first: bool) {
    'a' <= c <= 'z' || 'A' <= c <= 'Z' || c == '_' || c == ':' || (!first && '0' <= c <= '9')
  }

  /**
   What the sanitizer does to a name: every character outside the alphabet becomes an underscore,
   and then every run of underscores becomes one, except that a name which has nothing to replace
   and starts with its only double underscore stays as it is.
   */
  lemma SanitizedReplaces(name: string, replaced: string)
    requires |replaced| == |name|
    requires forall i | 0 <= i < |name| :: replaced[i] == if InAlphabet(name[i], i == 0) then name[i] else '_'
    ensures Sanitized(name) ==
            if replaced == name && "__" <= name && !HasDouble(name[1..]) then name else Collapse(replaced)
  {
    assert Cleaned(name) == replaced;
    FastPathAgreesIff(name);
    DoubleHead(name);
    if StartsWithLonePair(name) {
      PassesScanIff(name);
    }
  }

  /** A double underscore counts as a single one, wherever it stands; other texts stay as they are. */
  lemma {:induction false} CollapseMerges(a: string, b: string)
    ensures Collapse(a + "__" + b) == Collapse(a + "_" + b)
    ensures !HasDouble(a) ==> Collapse(a) == a
  {
    CollapseIsIdentityIff(a);
    if a == "" {
      assert a + "__" + b == "__" + b && a + "_" + b == "_" + b;
      assert ("__" + b)[1..] == "_" + b;
    } else {
      CollapseMerges(a[1..], b);
      HeadTail(a, "__" + b);
      HeadTail(a, "_" + b);
      Assoc(a, "__", b);
      Assoc(a, "_", b);
      Assoc(a[1..], "__", b);
      Assoc(a[1..], "_", b);
      CollapseStep(a[0], a[1..] + "__" + b);
      CollapseStep(a[0], a[1..] + "_" + b);
    }
  }

  lemma CollapseStep(c: char, s: string)
    requires s != ""
    ensures Collapse([c] + s) == if c == '_' && s[0] == '_' then Collapse(s) else [c] + Collapse(s)
  {
    HeadTail([c], s);
  }

  lemma SanitizedIsIdempotent(name: string)
    ensures Sanitized(Sanitized(name)) == Sanitized(name)
  {
    PassesScanIff(name);
    SlowIsName(name);
    PassesScanIff(Sanitized(name));
  }

  // ---------- Final metric names ----------

  predicate EndsWith(s: string, suffix: string) {
    |s| >= |suffix| && s[|s| - |suffix|..] == suffix
  }

  function AddUnitSuffix(name: string, unit: string): string {
    if unit == "" || EndsWith(name, unit) then name else name + "_" + unit
  }

  function FinalName(name: string, unit: string, isMonotonic: bool, withoutCounterSuffixes: bool): string {
    var sanitized := Sanitized(name);
    var withUnit := if unit == "" then sanitized else AddUnitSuffix(sanitized, unit);
    if isMonotonic && !withoutCounterSuffixes && !EndsWith(withUnit, "_total") then withUnit + "_total"
    else withUnit
  }

  ghost predicate AllRest(s: string) {
    forall i | 0 <= i < |s| :: IsRest(s[i])
  }

  lemma AppendKeepsName(a: string, b: string)
    requires IsName(a) && b != "" && IsFirst(b[0])
    ensures IsName(a + b) <==> AllRest(b)
  {
    var ab := a + b;
    assert forall i | 0 <= i < |b| :: ab[|a| + i] == b[i];
    assert forall i | 0 <= i < |a| :: ab[i] == a[i];
    if !AllRest(b) {
      var i :| 0 <= i < |b| && !IsRest(b[i]);
      assert !IsRest(ab[|a| + i]);
    }
  }

  lemma NotNamePrefix(a: string, b: string)
    requires !IsName(a)
    ensures !IsName(a + b)
  {
    assert forall i | 0 <= i < |a| :: (a + b)[i] == a[i];
  }

  lemma EndOfNameIsRest(name: string, unit: string)
    requires IsName(name) && EndsWith(name, unit)
    ensures AllRest(unit)
  {
    forall i | 0 <= i < |unit|
      ensures IsRest(unit[i])
    {
      assert unit[i] == name[|name| - |unit| + i];
    }
  }

  lemma UnitSuffixIsRestIff(unit: string)
    ensures AllRest("_" + unit) <==> AllRest(unit)
  {
    var suffix := "_" + unit;
    forall i | 0 <= i < |suffix|
      ensures suffix[i] == if i == 0 then '_' else unit[i - 1]
    {
      ConsAt('_', unit, i);
    }
    if AllRest(suffix) {
      assert forall i | 0 <= i < |unit| :: unit[i] == suffix[i + 1];
    }
  }

  lemma WithUnitIsNameIff(name: string, unit: string)
    requires IsName(name)
    ensures IsName(AddUnitSuffix(name, unit)) <==> AllRest(unit)
  {
    if EndsWith(name, unit) {
      EndOfNameIsRest(name, unit);
    } else {
      Assoc(name, "_", unit);
      UnitSuffixIsRestIff(unit);
      AppendKeepsName(name, "_" + unit);
    }
  }

  lemma TotalKeepsName(name: string)
    ensures IsName(name + "_total") <==> IsName(name)
    ensures EndsWith(name + "_total", "_total")
  {
    if IsName(name) {
      AppendKeepsName(name, "_total");
    } else {
      NotNamePrefix(name, "_total");
    }
    DropLeft(name, "_total");
  }

  lemma FinalNameIsEmptyIff(name: string, unit: string, isMonotonic: bool, withoutCounterSuffixes: bool)
    ensures FinalName(name, unit, isMonotonic, withoutCounterSuffixes) == "" <==>
            name == "" && unit == "" && (!isMonotonic || withoutCounterSuffixes)
  {
    SanitizedIsName(name);
  }

  /**
   The exposed name matches the pattern exactly when the unit is made of name characters, units
   being the one part of the name nothing sanitizes, and there is something to expose at all.
   */
  lemma FinalNameIsNameIff(name: string, unit: string, isMonotonic: bool, withoutCounterSuffixes: bool)
    ensures var final := FinalName(name, unit, isMonotonic, withoutCounterSuffixes);
            && (final != "" && IsName(final) <==>
                AllRest(unit) && (name != "" || unit != "" || (isMonotonic && !withoutCounterSuffixes)))
            && (isMonotonic && !withoutCounterSuffixes ==> EndsWith(final, "_total"))
  {
    SanitizedIsName(name);
    WithUnitIsNameIff(Sanitized(name), unit);
    TotalKeepsName(AddUnitSuffix(Sanitized(name), unit));
    FinalNameIsEmptyIff(name, unit, isMonotonic, withoutCounterSuffixes);
  }

  /** Whether appending `unit` makes the name end in `_total` is decided by the unit alone. */
  lemma TotalFromUnit(name: string, unit: string)
    ensures EndsWith(name + "_" + unit, "_total") <==> EndsWith("_" + unit, "_total")
  {
    var suffix, full := "_" + unit, name + "_" + unit;
    Assoc(name, "_", unit);
    assert |full| == |name| + |suffix| && full[|name|] == '_';
    if |suffix| >= 6 {
      assert full[|full| - 6..] == suffix[|suffix| - 6..];
    }
  }

  /** The unit as it is appended: not at all when there is none or the name ends with it. */
  function UnitPart(name: string, unit: string): string {
    if unit == "" || EndsWith(name, unit) then "" else "_" + unit
  }

  /** `_total` as it is appended: for counters, unless what precedes it ends in `_total`. */
  function TotalPart(name: string, unitPart: string, isCounter: bool): string {
    if !isCounter || EndsWith(if unitPart == "" then name else unitPart, "_total") then "" else "_total"
  }

  /**
   The exposed name is exactly the sanitized name, then the unit part, then the total part.
   Whether `_total` is already there can be read off the part before it alone.
   */
  lemma FinalNameShape(name: string, unit: string, isMonotonic: bool, withoutCounterSuffixes: bool)
    ensures var sanitized := Sanitized(name);
            var unitPart := UnitPart(sanitized, unit);
            FinalName(name, unit, isMonotonic, withoutCounterSuffixes) ==
            sanitized + unitPart + TotalPart(sanitized, unitPart, isMonotonic && !withoutCounterSuffixes)
  {
    var sanitized := Sanitized(name);
    var unitPart := UnitPart(sanitized, unit);
    Assoc(sanitized, "_", unit);
    TotalFromUnit(sanitized, unit);
    assert sanitized + "" == sanitized;
    assert sanitized + unitPart + "" == sanitized + unitPart;
    assert AddUnitSuffix(sanitized, unit) == sanitized + unitPart;
  }

  /** The same in full: what is appended, and when. */
  lemma FinalNameInFull(name: string, unit: string, isMonotonic: bool, withoutCounterSuffixes: bool)
    ensures var sanitized := Sanitized(name);
            var withUnit := if EndsWith(sanitized, unit) then sanitized else sanitized + "_" + unit;
            FinalName(name, unit, isMonotonic, withoutCounterSuffixes) ==
            if isMonotonic && !withoutCounterSuffixes && !EndsWith(withUnit, "_total") then withUnit + "_total"
            else withUnit
  {}

  lemma EndsWithMeans(s: string, suffix: string)
    ensures EndsWith(s, suffix) <==> exists front :: s == front + suffix
  {
    if EndsWith(s, suffix) {
      Cut(s, |s| - |suffix|);
    }
    if front :| s == front + suffix {
      DropLeft(front, suffix);
    }
  }

  /** A unit that spoils every exposed name: square metres, which unit conversion leaves as they are. */
  lemma UnitSpoilsName(name: string, isMonotonic: bool, withoutCounterSuffixes: bool)
    ensures !IsName(FinalName(name, "m^2", isMonotonic, withoutCounterSuffixes))
  {
    FinalNameIsNameIff(name, "m^2", isMonotonic, withoutCounterSuffixes);
    FinalNameIsEmptyIff(name, "m^2", isMonotonic, withoutCounterSuffixes);
    assert !IsRest("m^2"[1]);
  }
}
