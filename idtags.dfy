// Id tags such as "abs_1": the first word of a name, lower-cased and stripped
// to `[a-z0-9]`, an underscore, and the numeric id of a lookup row.
// `generate*Id` builds them (controllers/FeatureController.php:1393-1466) and
// `getClientNameById` / `getSourceNameById` read the number back with the
// unanchored pattern `[a-z0-9]+_(\d+)` (controllers/FeatureController.php:527-574).
module IdTags {
  import opened Wrappers
  import opened Text

  /** PHP_INT_MAX on a 64-bit build: `(int)` of a longer digit string saturates here. */
  const PhpIntMax: int := 0x7FFF_FFFF_FFFF_FFFF

  predicate IsTagChar(c: char) {
    'a' <= c <= 'z' || '0' <= c <= '9'
  }

  /**
   * Position `e` is where the pattern can cross from `[a-z0-9]+` to `_(\d+)`.
   * Since `_` is not in `[a-z0-9]`, a match starting anywhere in a run of tag
   * characters must cross exactly at the end of that run; so the leftmost match
   * is the one at the first such position.
   */
  predicate TagAt(s: string, e: nat) {
    0 < e && e + 1 < |s| && IsTagChar(s[e - 1]) && s[e] == '_' && IsDigit(s[e + 1])
  }

  /** The first crossing position at or after `from`. */
  function FindTag(s: string, from: nat): (r: Option<nat>)
    ensures r.Some? ==> from <= r.value && TagAt(s, r.value)
    ensures r.Some? ==> forall e :: from <= e < r.value ==> !TagAt(s, e)
    ensures r.None? ==> forall e :: from <= e ==> !TagAt(s, e)
    decreases |s| - from
  {
    if from + 1 >= |s| then None
    else if TagAt(s, from) then Some(from)
    else FindTag(s, from + 1)
  }

  /** The longest prefix of decimal digits (what greedy `\d+` takes). */
  function DigitRun(s: string): (r: string)
    ensures r <= s
    ensures forall i :: 0 <= i < |r| ==> IsDigit(r[i])
    ensures |r| == |s| || !IsDigit(s[|r|])
  {
    if s == [] || !IsDigit(s[0]) then [] else [s[0]] + DigitRun(s[1..])
  }

  /** The numeric id in an id tag, or None when the pattern does not match. */
  function ParseIdTag(s: string): (r: Option<int>)
    ensures r.Some? <==> exists e :: TagAt(s, e)
    ensures r.Some? ==> 0 <= r.value <= PhpIntMax
  {
    match FindTag(s, 0)
    case None => None
    case Some(e) =>
      var n := DigitsValue(DigitRun(s[e + 1..]));
      Some(if n > PhpIntMax then PhpIntMax else n)
  }

  /** `explode(' ', $s)[0]`: the text before the first space. */
  function FirstWord(s: string): (r: string)
    ensures r <= s && ' ' !in r
    ensures |r| == |s| || s[|r|] == ' '
  {
    if s == [] || s[0] == ' ' then [] else [s[0]] + FirstWord(s[1..])
  }

  /** `preg_replace('/[^a-z0-9]/', '', $s)`. */
  function KeepTagChars(s: string): (r: string)
    ensures |r| <= |s|
    ensures forall i :: 0 <= i < |r| ==> IsTagChar(r[i])
  {
    if s == [] then []
    else (if IsTagChar(s[0]) then [s[0]] else []) + KeepTagChars(s[1..])
  }

  /** The tag prefix for a name: first word, lower-cased, tag characters only. */
  function TagKey(name: string): string {
    KeepTagChars(Lower(FirstWord(Trim(name))))
  }

  /** `generateSystemNameId` and its five identical siblings. */
  function GenerateId(name: string, id: int): (r: string)
    ensures r == TagKey(name) + "_" + IntToString(id)
  {
    TagKey(name) + "_" + IntToString(id)
  }

  /**
   * Reading a generated tag back yields the id exactly when the name keeps at
   * least one tag character and the id is not negative ("_5" and "abc_-5" do not
   * match the pattern).
   */
  lemma {:induction false} GenerateParseRoundTrip(name: string, id: int)
    requires id <= PhpIntMax
    ensures ParseIdTag(GenerateId(name, id)).Some? <==> TagKey(name) != "" && id >= 0
    ensures TagKey(name) != "" && id >= 0 ==> ParseIdTag(GenerateId(name, id)) == Some(id)
  {
    var key := TagKey(name);
    var digits := IntToString(id);
    var s := GenerateId(name, id);
    assert |s| == |key| + 1 + |digits|;
    assert forall i :: 0 <= i < |key| ==> s[i] == key[i];
    assert s[|key|] == '_';
    assert forall i :: 0 <= i < |digits| ==> s[|key| + 1 + i] == digits[i];
    // No crossing lies inside the key (no `_` there) or inside the digits.
    forall e: nat | e < |s| && e != |key| ensures s[e] != '_' {
      if e < |key| {
        assert s[e] == key[e];
      } else {
        assert s[e] == digits[e - |key| - 1];
      }
    }
    if key != "" && id >= 0 {
      assert TagAt(s, |key|);
      assert FindTag(s, 0) == Some(|key|);
      assert s[|key| + 1..] == digits;
      DigitRunAll(digits);
      DigitsRoundTrip(id);
    } else if id < 0 {
      assert digits[0] == '-';
      assert !TagAt(s, |key|);
    } else {
      assert !TagAt(s, |key|);
    }
  }

  lemma {:induction false} DigitRunAll(s: string)
    requires forall i :: 0 <= i < |s| ==> IsDigit(s[i])
    ensures DigitRun(s) == s
  {
    if s != [] {
      DigitRunAll(s[1..]);
    }
  }
}
