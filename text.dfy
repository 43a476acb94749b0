/**
 * String primitives of PHP and JavaScript that the rest of the model relies on:
 * trimming, PHP's `empty()`, ASCII case folding, substring search and decimal
 * conversion.  Strings are sequences of Unicode scalar values.
 */
module Text {

  /** The characters PHP's `trim()` strips by default: " \t\n\r\0\x0B". */
  predicate IsPhpSpace(c: char) {
    c == ' ' || c == '\t' || c == '\n' || c == '\r' || c == '\0' || c == '\U{B}'
  }

  /** The characters JavaScript's `String.prototype.trim` strips (WhiteSpace and LineTerminator of ECMA-262). */
  predicate IsJsSpace(c: char) {
    || c == '\t' || c == '\U{B}' || c == '\U{C}' || c == ' ' || c == '\U{A0}' || c == '\U{1680}'
    || ('\U{2000}' <= c <= '\U{200A}') || c == '\U{202F}' || c == '\U{205F}' || c == '\U{3000}'
    || c == '\U{FEFF}' || c == '\n' || c == '\r' || c == '\U{2028}' || c == '\U{2029}'
  }

  /** The character sets that the source strips from the ends of strings. */
  datatype CharClass = PhpSpace | JsSpace | LetterS

  predicate InClass(ws: CharClass, c: char) {
    match ws
    case PhpSpace => IsPhpSpace(c)
    case JsSpace => IsJsSpace(c)
    case LetterS => c == 's'
  }

  /** `s` without its leading characters satisfying `ws`. */
  function StripLeft(s: string, ws: CharClass): (r: string)
    ensures |r| <= |s|
    ensures forall i :: 0 <= i < |s| - |r| ==> InClass(ws, s[i])
    ensures r == [] || !InClass(ws, r[0])
  {
    if |s| > 0 && InClass(ws, s[0]) then StripLeft(s[1..], ws) else s
  }

  /** `s` without its trailing characters satisfying `ws`. */
  function StripRight(s: string, ws: CharClass): (r: string)
    ensures |r| <= |s|
    ensures forall i :: |r| <= i < |s| ==> InClass(ws, s[i])
    ensures r == [] || !InClass(ws, r[|r| - 1])
  {
    if |s| > 0 && InClass(ws, s[|s| - 1]) then StripRight(s[..|s| - 1], ws) else s
  }

  /** Stripping a single trailing character of the class from a string that does not otherwise end in one. */
  lemma StripRightOne(s: string, c: char, ws: CharClass)
    requires InClass(ws, c) && (s == [] || !InClass(ws, s[|s| - 1]))
    ensures StripRight(s + [c], ws) == s
  {
    assert (s + [c])[..|s|] == s;
  }

  /** PHP `trim($s)`. */
  function Trim(s: string): string {
    StripRight(StripLeft(s, PhpSpace), PhpSpace)
  }

  /** JavaScript `s.trim()` (also jQuery's `$.trim`). */
  function JsTrim(s: string): string {
    StripRight(StripLeft(s, JsSpace), JsSpace)
  }

  lemma {:induction false} StripLeftSuffix(s: string, ws: CharClass)
    ensures StripLeft(s, ws) == s[|s| - |StripLeft(s, ws)|..]
  {
    if |s| > 0 && InClass(ws, s[0]) {
      StripLeftSuffix(s[1..], ws);
      assert s[1..][|s| - 1 - |StripLeft(s[1..], ws)|..] == s[|s| - |StripLeft(s[1..], ws)|..];
    }
  }

  lemma {:induction false} StripRightPrefix(s: string, ws: CharClass)
    ensures StripRight(s, ws) == s[..|StripRight(s, ws)|]
  {
    if |s| > 0 && InClass(ws, s[|s| - 1]) {
      StripRightPrefix(s[..|s| - 1], ws);
      assert s[..|s| - 1][..|StripRight(s[..|s| - 1], ws)|] == s[..|StripRight(s[..|s| - 1], ws)|];
    }
  }

  lemma StripLeftNoop(s: string, ws: CharClass)
    requires s == [] || !InClass(ws, s[0])
    ensures StripLeft(s, ws) == s
  {
  }

  lemma StripRightNoop(s: string, ws: CharClass)
    requires s == [] || !InClass(ws, s[|s| - 1])
    ensures StripRight(s, ws) == s
  {
  }

  /** The trimmed string is a slice of the input with no PHP space at either end. */
  lemma TrimShape(s: string)
    ensures exists i, j :: 0 <= i <= j <= |s| && Trim(s) == s[i..j]
    ensures Trim(s) == [] || (!IsPhpSpace(Trim(s)[0]) && !IsPhpSpace(Trim(s)[|Trim(s)| - 1]))
  {
    var l := StripLeft(s, PhpSpace);
    var r := StripRight(l, PhpSpace);
    StripLeftSuffix(s, PhpSpace);
    StripRightPrefix(l, PhpSpace);
    assert r == s[|s| - |l|..][..|r|];
    assert r == s[|s| - |l|..|s| - |l| + |r|];
    if r != [] {
      assert r[0] == l[0];
    }
  }

  /** Trimming twice is trimming once. */
  lemma TrimIdempotent(s: string)
    ensures Trim(Trim(s)) == Trim(s)
  {
    var t := Trim(s);
    TrimShape(s);
    StripLeftNoop(t, PhpSpace);
    StripRightNoop(t, PhpSpace);
  }

  /** JavaScript trimming twice is trimming once. */
  lemma JsTrimIdempotent(s: string)
    ensures JsTrim(JsTrim(s)) == JsTrim(s)
  {
    var l := StripLeft(s, JsSpace);
    var t := StripRight(l, JsSpace);
    StripRightPrefix(l, JsSpace);
    if t != [] {
      assert t[0] == l[0];
    }
    StripLeftNoop(t, JsSpace);
    StripRightNoop(t, JsSpace);
  }

  /** PHP's `empty()` applied to a string: "" and "0" are empty. */
  predicate IsEmpty(s: string) {
    s == "" || s == "0"
  }

  /** PHP's `empty(trim($s))`, the test the source applies before using a name. */
  predicate IsBlank(s: string) {
    IsEmpty(Trim(s))
  }

  /** PHP 8 `strtolower` on one character: ASCII letters only. */
  function LowerChar(c: char): char {
    if 'A' <= c <= 'Z' then (c as int + 32) as char else c
  }

  /** PHP 8 `strtolower`: the ASCII letters of `s` lowered, everything else kept. */
  function Lower(s: string): (r: string)
    ensures |r| == |s|
  {
    seq(|s|, i requires 0 <= i < |s| => LowerChar(s[i]))
  }

  /** Lowering leaves no ASCII capital behind, so it is idempotent. */
  lemma LowerIdempotent(s: string)
    ensures Lower(Lower(s)) == Lower(s)
    ensures forall i :: 0 <= i < |s| ==> !('A' <= Lower(s)[i] <= 'Z')
  {
  }

  /** Lowering neither creates nor removes the characters `trim()` strips, so the two commute. */
  lemma {:induction false} LowerStripLeft(s: string)
    ensures StripLeft(Lower(s), PhpSpace) == Lower(StripLeft(s, PhpSpace))
    decreases |s|
  {
    if |s| > 0 {
      assert Lower(s)[1..] == Lower(s[1..]);
      LowerStripLeft(s[1..]);
    }
  }

  lemma {:induction false} LowerStripRight(s: string)
    ensures StripRight(Lower(s), PhpSpace) == Lower(StripRight(s, PhpSpace))
    decreases |s|
  {
    if |s| > 0 {
      assert Lower(s)[..|s| - 1] == Lower(s[..|s| - 1]);
      LowerStripRight(s[..|s| - 1]);
    }
  }

  lemma TrimLower(s: string)
    ensures Trim(Lower(s)) == Lower(Trim(s))
  {
    LowerStripLeft(s);
    LowerStripRight(StripLeft(s, PhpSpace));
  }

  /** `needle` occurs in `hay` as a contiguous block (PHP `strpos(...) !== false` for a non-empty needle). */
  predicate Contains(hay: string, needle: string)
    decreases |hay|
  {
    needle <= hay || (|hay| > 0 && Contains(hay[1..], needle))
  }

  /** `needle` begins at offset `i` of `hay`. */
  predicate OccursAt(hay: string, needle: string, i: int) {
    0 <= i <= |hay| && needle <= hay[i..]
  }

  /** The recursive definition of `Contains` agrees with "occurs at some offset". */
  lemma {:induction false} ContainsAt(hay: string, needle: string)
    ensures Contains(hay, needle) <==> exists i :: OccursAt(hay, needle, i)
    decreases |hay|
  {
    if |hay| > 0 {
      ContainsAt(hay[1..], needle);
      if Contains(hay, needle) {
        if needle <= hay {
          assert hay[0..] == hay;
          assert OccursAt(hay, needle, 0);
        } else {
          var i :| OccursAt(hay[1..], needle, i);
          assert hay[1..][i..] == hay[i + 1..];
          assert OccursAt(hay, needle, i + 1);
        }
      }
      if exists i :: OccursAt(hay, needle, i) {
        var i :| OccursAt(hay, needle, i);
        if i > 0 {
          assert hay[1..][i - 1..] == hay[i..];
          assert OccursAt(hay[1..], needle, i - 1);
        } else {
          assert hay[i..] == hay;
        }
      }
    } else {
      forall i | OccursAt(hay, needle, i) ensures needle <= hay {
        assert hay[i..] == hay;
      }
      if Contains(hay, needle) {
        assert hay[0..] == hay;
        assert OccursAt(hay, needle, 0);
      }
    }
  }

  /** Every string contains itself. */
  lemma ContainsSelf(s: string)
    ensures Contains(s, s)
  {
  }

  /** PHP 8 `stripos($hay, $needle) !== false`, ASCII case-insensitive. */
  predicate ContainsIgnoringCase(hay: string, needle: string) {
    Contains(Lower(hay), Lower(needle))
  }

  predicate IsDigit(c: char) {
    '0' <= c <= '9'
  }

  /** The decimal digits of a natural number, most significant first, without leading zeros. */
  function NatToString(n: nat): (r: string)
    ensures |r| > 0 && forall i :: 0 <= i < |r| ==> IsDigit(r[i])
    ensures n > 0 ==> r[0] != '0'
    decreases n
  {
    if n < 10 then [('0' as int + n) as char]
    else NatToString(n / 10) + [('0' as int + n % 10) as char]
  }

  /** PHP's string conversion of an integer (interpolation, `(string)`). */
  function IntToString(i: int): (r: string)
    ensures |r| > 0
    ensures forall k :: 0 <= k < |r| ==> IsDigit(r[k]) || (k == 0 && r[k] == '-' && i < 0)
    ensures i >= 0 ==> r == NatToString(i)
    ensures i < 0 ==> r[0] == '-'
  {
    if i < 0 then "-" + NatToString(-i) else NatToString(i)
  }

  /** The number a string of decimal digits denotes. */
  function DigitsValue(s: string): nat
    requires forall i :: 0 <= i < |s| ==> IsDigit(s[i])
    decreases |s|
  {
    if s == [] then 0
    else
      assert IsDigit(s[|s| - 1]);
      DigitsValue(s[..|s| - 1]) * 10 + (s[|s| - 1] as int - '0' as int)
  }

  /** Reading back the decimal digits of `n` gives `n`. */
  lemma {:induction false} DigitsRoundTrip(n: nat)
    ensures DigitsValue(NatToString(n)) == n
    decreases n
  {
    if n >= 10 {
      DigitsRoundTrip(n / 10);
      var s := NatToString(n);
      assert s[..|s| - 1] == NatToString(n / 10);
    }
  }
}
