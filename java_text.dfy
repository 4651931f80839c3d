// The few pieces of java.lang.String, Integer and Long semantics the core
// relies on, written out explicitly: trim(), trim().isEmpty(), ASCII case
// conversion, contains/startsWith/endsWith, UTF-16 length and parseInt /
// parseLong.
module JavaText {
  import opened Wrappers

  // String.trim() removes every leading and trailing char <= U+0020.
  predicate IsTrimmed(c: char) { c <= ' ' }

  // The first index at or after i whose char trim() keeps (|s| if none).
  function FirstKept(s: string, i: nat): (n: nat)
    requires i <= |s|
    decreases |s| - i
    ensures i <= n <= |s|
    ensures forall k :: i <= k < n ==> IsTrimmed(s[k])
    ensures n < |s| ==> !IsTrimmed(s[n])
  {
    if i < |s| && IsTrimmed(s[i]) then FirstKept(s, i + 1) else i
  }

  // One past the last index before j whose char trim() keeps (0 if none).
  function EndKept(s: string, j: nat): (n: nat)
    requires j <= |s|
    ensures n <= j
    ensures forall k :: n <= k < j ==> IsTrimmed(s[k])
    ensures n > 0 ==> !IsTrimmed(s[n - 1])
  {
    if j > 0 && IsTrimmed(s[j - 1]) then EndKept(s, j - 1) else j
  }

  // Java's s.trim(): the stretch from the first kept char to the last.
  function Trim(s: string): (r: string)
    ensures FirstKept(s, 0) + |r| <= |s| && r == s[FirstKept(s, 0)..FirstKept(s, 0) + |r|]
    ensures forall k :: 0 <= k < FirstKept(s, 0) ==> IsTrimmed(s[k])
    ensures forall k :: FirstKept(s, 0) + |r| <= k < |s| ==> IsTrimmed(s[k])
    ensures r != [] ==> !IsTrimmed(r[0]) && !IsTrimmed(r[|r| - 1])
  {
    if FirstKept(s, 0) == |s| then [] else s[FirstKept(s, 0)..EndKept(s, |s|)]
  }

  // Java's s.trim().isEmpty(): every char is one trim() removes. The lemma
  // below ties this to Trim.
  predicate IsBlank(s: string) { forall k :: 0 <= k < |s| ==> IsTrimmed(s[k]) }

  lemma BlankIffTrimEmpty(s: string)
    ensures IsBlank(s) <==> Trim(s) == []
  {
    if Trim(s) == [] {
      assert FirstKept(s, 0) == |s|;
    }
  }

  lemma TrimUnpadded(s: string)
    requires s != [] && !IsTrimmed(s[0]) && !IsTrimmed(s[|s| - 1])
    ensures Trim(s) == s
  {
    assert FirstKept(s, 0) == 0;
    assert EndKept(s, |s|) == |s|;
    assert s[0..|s|] == s;
  }

  // trim() keeps exactly the stretch between the padding: a slice whose
  // end chars it keeps, with only chars it drops around it.
  lemma TrimOfPadded(s: string, lo: nat, hi: nat)
    requires lo < hi <= |s| && !IsTrimmed(s[lo]) && !IsTrimmed(s[hi - 1])
    requires forall k :: 0 <= k < lo ==> IsTrimmed(s[k])
    requires forall k :: hi <= k < |s| ==> IsTrimmed(s[k])
    ensures Trim(s) == s[lo..hi]
  {
    var a := FirstKept(s, 0);
    assert a == lo;
    var r := Trim(s);
    assert r != [];
    assert s[a + |r| - 1] == r[|r| - 1];
    assert a + |r| == hi;
  }

  lemma TrimIdempotent(s: string)
    ensures Trim(Trim(s)) == Trim(s)
  {
    var r := Trim(s);
    if r != [] {
      TrimUnpadded(r);
    }
  }

  predicate Null<T>(o: Option<seq<T>>) { o.None? }

  // A nullable string that is null or blank (the source's usual guard).
  predicate NullOrBlank(o: Option<string>) { o.None? || IsBlank(o.value) }

  function LowerChar(c: char): char
  {
    if 'A' <= c <= 'Z' then (c as int + 32) as char else c
  }

  // The ASCII letters, and the two non-ASCII letters whose upper case is
  // an ASCII letter: dotless i (U+0131) and long s (U+017F).
  function UpperChar(c: char): char
  {
    if 'a' <= c <= 'z' then (c as int - 32) as char
    else if c == '\U{0131}' then 'I'
    else if c == '\U{017F}' then 'S'
    else c
  }

  // toLowerCase / toUpperCase in a locale without special casing: the
  // letters above; other non-ASCII letters are left as they are.
  function ToLower(s: string): (r: string)
    ensures |r| == |s| && forall k :: 0 <= k < |s| ==> r[k] == LowerChar(s[k])
  {
    seq(|s|, k requires 0 <= k < |s| => LowerChar(s[k]))
  }

  function ToUpper(s: string): (r: string)
    ensures |r| == |s| && forall k :: 0 <= k < |s| ==> r[k] == UpperChar(s[k])
  {
    seq(|s|, k requires 0 <= k < |s| => UpperChar(s[k]))
  }

  lemma ToUpperIdempotent(s: string)
    ensures ToUpper(ToUpper(s)) == ToUpper(s)
  {
  }

  predicate StartsWith(s: string, prefix: string)
  {
    |prefix| <= |s| && s[..|prefix|] == prefix
  }

  predicate EndsWith(s: string, suffix: string)
  {
    |suffix| <= |s| && s[|s| - |suffix|..] == suffix
  }

  // Dots, digits and lower-case ASCII letters: ToLower fixes them and
  // undoes ToUpper on them.
  predicate LowerAsciiOnly(e: string)
  {
    forall k :: 0 <= k < |e| ==> e[k] == '.' || '0' <= e[k] <= '9' || 'a' <= e[k] <= 'z'
  }

  // Lower-casing a string ending in such a suffix, as written or
  // upper-cased, ends in the suffix.
  lemma LowerEndsWithSuffix(prefix: string, e: string)
    requires LowerAsciiOnly(e)
    ensures EndsWith(ToLower(prefix + e), e) && EndsWith(ToLower(prefix + ToUpper(e)), e)
  {
    var p, q := prefix + e, prefix + ToUpper(e);
    assert ToLower(p)[|p| - |e|..] == e;
    assert ToLower(q)[|q| - |e|..] == e;
  }

  predicate OccursAt(s: string, sub: string, k: int)
  {
    0 <= k && k + |sub| <= |s| && s[k..k + |sub|] == sub
  }

  // s.contains(sub)
  function Contains(s: string, sub: string): (r: bool)
    ensures r <==> exists k :: OccursAt(s, sub, k)
  {
    if StartsWith(s, sub) then
      assert OccursAt(s, sub, 0);
      true
    else if s == [] then
      assert forall k :: !OccursAt(s, sub, k);
      false
    else
      var r := Contains(s[1..], sub);
      assert forall k :: OccursAt(s[1..], sub, k) <==> OccursAt(s, sub, k + 1);
      assert forall k :: OccursAt(s, sub, k) ==> k == 0 || OccursAt(s[1..], sub, k - 1);
      r
  }

  // A text missing one of the characters of sub does not contain sub.
  lemma MissingCharAbsent(s: string, sub: string, i: nat)
    requires i < |sub| && sub[i] !in s
    ensures !Contains(s, sub)
  {
  }

  // String.equalsIgnoreCase: the same length, and at each position the two
  // characters are equal, equal in upper case, or equal in the lower case
  // of their upper case.
  predicate CharsMatchIgnoringCase(a: char, b: char)
  {
    a == b || UpperChar(a) == UpperChar(b) || LowerChar(UpperChar(a)) == LowerChar(UpperChar(b))
  }

  predicate EqualsIgnoreCase(a: string, b: string)
  {
    |a| == |b| && forall k :: 0 <= k < |a| ==> CharsMatchIgnoringCase(a[k], b[k])
  }

  // The part of s before its first c (all of s when there is none).
  function TakeUntil(s: string, c: char): (r: string)
    ensures |r| <= |s| && r == s[..|r|] && c !in r && (|r| == |s| || s[|r|] == c)
  {
    if s == [] || s[0] == c then [] else [s[0]] + TakeUntil(s[1..], c)
  }

  // s.split(c)[0] for a separator c without regex meaning. split drops the
  // trailing empty strings, so a non-empty s made of c alone splits into
  // no strings at all and the index throws: None.
  function SplitHead(s: string, c: char): (r: Option<string>)
  {
    if s != [] && forall k :: 0 <= k < |s| ==> s[k] == c then None else Some(TakeUntil(s, c))
  }

  // The first field is the text before the first separator; it is absent
  // exactly for a non-empty run of separators.
  lemma SplitHeadSpec(s: string, c: char)
    ensures SplitHead(s, c).None? <==> s != [] && forall k :: 0 <= k < |s| ==> s[k] == c
    ensures SplitHead(s, c).Some? ==>
      var f := SplitHead(s, c).value;
      StartsWith(s, f) && c !in f && (|f| == |s| || s[|f|] == c)
  {
  }

  // String.length(): UTF-16 code units, so a char above U+FFFF counts twice.
  function Utf16Length(s: string): (n: nat)
    ensures |s| <= n <= 2 * |s|
    ensures (forall k :: 0 <= k < |s| ==> s[k] as int <= 0xFFFF) ==> n == |s|
  {
    if s == [] then 0
    else (if s[|s| - 1] as int > 0xFFFF then 2 else 1) + Utf16Length(s[..|s| - 1])
  }

  predicate IsDigit(c: char) { '0' <= c <= '9' }

  predicate AllDigits(s: string) { forall k :: 0 <= k < |s| ==> IsDigit(s[k]) }

  function DigitValue(c: char): nat
    requires IsDigit(c)
  {
    c as int - '0' as int
  }

  // Decimal value of a run of ASCII digits, most significant first.
  function DigitsValue(s: string): nat
    requires AllDigits(s)
  {
    if s == [] then 0 else DigitsValue(s[..|s| - 1]) * 10 + DigitValue(s[|s| - 1])
  }

  const IntMin: int := -0x8000_0000
  const IntMax: int := 0x7FFF_FFFF
  const LongMin: int := -0x8000_0000_0000_0000
  const LongMax: int := 0x7FFF_FFFF_FFFF_FFFF

  // Integer.parseInt / Long.parseLong over [lo, hi]: an optional sign, at
  // least one digit, nothing else, and a value inside the range; any other
  // input is a NumberFormatException, here None.
  function ParseRange(s: string, lo: int, hi: int): (r: Option<int>)
    ensures r.Some? ==> lo <= r.value <= hi
    ensures r.Some? ==> s != [] && AllDigits(if s[0] == '-' || s[0] == '+' then s[1..] else s)
    ensures s == [] ==> r.None?
  {
    if s == [] then None
    else
      var neg := s[0] == '-';
      var body := if s[0] == '-' || s[0] == '+' then s[1..] else s;
      if body == [] || !AllDigits(body) then None
      else
        var v := if neg then -(DigitsValue(body) as int) else DigitsValue(body);
        if lo <= v <= hi then Some(v) else None
  }

  function ParseInt(s: string): (r: Option<int>)
    ensures r.Some? ==> IntMin <= r.value <= IntMax
  {
    ParseRange(s, IntMin, IntMax)
  }

  function ParseLong(s: string): (r: Option<int>)
    ensures r.Some? ==> LongMin <= r.value <= LongMax
  {
    ParseRange(s, LongMin, LongMax)
  }

  // Decimal digits of a natural number (Integer.toString without sign).
  function ShowNat(n: nat): (r: string)
    ensures r != [] && AllDigits(r)
    decreases n
  {
    if n < 10 then [('0' as int + n) as char]
    else ShowNat(n / 10) + [('0' as int + n % 10) as char]
  }

  // Integer.toString / Long.toString.
  function Show(n: int): (r: string)
    ensures r != []
  {
    if n < 0 then "-" + ShowNat(-n) else ShowNat(n)
  }

  lemma {:induction false} DigitsOfShowNat(n: nat)
    ensures DigitsValue(ShowNat(n)) == n
    decreases n
  {
    var r := ShowNat(n);
    if n >= 10 {
      DigitsOfShowNat(n / 10);
      assert r[..|r| - 1] == ShowNat(n / 10);
    }
  }

  // parse(toString(n)) == n on the whole range.
  lemma ParseShowRoundTrip(n: int, lo: int, hi: int)
    requires lo <= n <= hi
    ensures ParseRange(Show(n), lo, hi) == Some(n)
  {
    var s := Show(n);
    if n < 0 {
      assert s[1..] == ShowNat(-n);
      DigitsOfShowNat(-n);
    } else {
      DigitsOfShowNat(n);
    }
  }
}
