// src/main/webapp/js/main.js: the DISCTest scorer, the description
// fallback, FormValidator.isValidEmail and StorageManager.clearAll.
module MainScript {
  import opened Wrappers
  import opened Disc
  import JavaText

  // ---- JavaScript numbers as these scores hold them ------------------------

  // parseInt yields an integer or NaN, and sums of integers stay integers.
  datatype JsNum = Num(n: int) | NaN

  // `+`: NaN as soon as either side is NaN.
  function JsAdd(x: JsNum, y: JsNum): (r: JsNum)
    ensures r.Num? <==> x.Num? && y.Num?
    ensures r.Num? ==> r.n == x.n + y.n
  {
    if x.Num? && y.Num? then Num(x.n + y.n) else NaN
  }

  // `>`: false as soon as either side is NaN.
  predicate JsGreater(x: JsNum, y: JsNum)
  {
    x.Num? && y.Num? && x.n > y.n
  }

  // White space and line terminators of ECMAScript: what parseInt skips
  // and what `\s` matches in a regular expression.
  predicate IsJsSpace(c: char)
  {
    c == '\t' || c == '\n' || c == '\U{000B}' || c == '\U{000C}' || c == '\r' || c == ' '
    || c == '\U{00A0}' || c == '\U{1680}' || ('\U{2000}' <= c <= '\U{200A}')
    || c == '\U{2028}' || c == '\U{2029}' || c == '\U{202F}' || c == '\U{205F}'
    || c == '\U{3000}' || c == '\U{FEFF}'
  }

  // ---- parseInt ------------------------------------------------------------

  function TrimStart(s: string): (r: string)
    ensures |r| <= |s|
  {
    if |s| > 0 && IsJsSpace(s[0]) then TrimStart(s[1..]) else s
  }

  // TrimStart drops exactly the leading white space.
  lemma {:induction false} TrimStartSpec(s: string)
    ensures TrimStart(s) == s[|s| - |TrimStart(s)|..]
    ensures |TrimStart(s)| > 0 ==> !IsJsSpace(TrimStart(s)[0])
    ensures forall k :: 0 <= k < |s| - |TrimStart(s)| ==> IsJsSpace(s[k])
  {
    if |s| > 0 && IsJsSpace(s[0]) {
      TrimStartSpec(s[1..]);
    }
  }

  function TrimEnd(s: string): (r: string)
    ensures |r| <= |s|
  {
    if |s| > 0 && IsJsSpace(s[|s| - 1]) then TrimEnd(s[..|s| - 1]) else s
  }

  // TrimEnd drops exactly the trailing white space.
  lemma {:induction false} TrimEndSpec(s: string)
    ensures TrimEnd(s) == s[..|TrimEnd(s)|]
    ensures |TrimEnd(s)| > 0 ==> !IsJsSpace(TrimEnd(s)[|TrimEnd(s)| - 1])
    ensures forall k :: |TrimEnd(s)| <= k < |s| ==> IsJsSpace(s[k])
  {
    if |s| > 0 && IsJsSpace(s[|s| - 1]) {
      TrimEndSpec(s[..|s| - 1]);
      assert forall k :: |TrimEnd(s)| <= k < |s| - 1 ==> s[k] == s[..|s| - 1][k];
    }
  }

  // String.prototype.trim
  function Trim(s: string): (r: string)
  {
    TrimEnd(TrimStart(s))
  }

  // trim() leaves a text with no white space at either end, and the empty
  // text exactly when there was nothing but white space.
  lemma TrimSpec(s: string)
    ensures Trim(s) != [] ==> !IsJsSpace(Trim(s)[0]) && !IsJsSpace(Trim(s)[|Trim(s)| - 1])
    ensures Trim(s) == [] <==> forall k :: 0 <= k < |s| ==> IsJsSpace(s[k])
    ensures Trim(Trim(s)) == Trim(s)
  {
    var t := TrimStart(s);
    TrimStartSpec(s);
    TrimEndSpec(t);
    var r := TrimEnd(t);
    if r != [] {
      assert r[0] == t[0];
    }
    if r != [] {
      assert TrimStart(r) == r;
      assert TrimEnd(r) == r;
    } else {
      assert TrimStart(r) == r;
    }
  }

  // The value of a digit in bases up to 36; 36 for a character that is no
  // digit in any of them.
  function DigitValue(c: char): (v: nat)
    ensures v <= 36
  {
    if '0' <= c <= '9' then c as int - '0' as int
    else if 'a' <= c <= 'z' then c as int - 'a' as int + 10
    else if 'A' <= c <= 'Z' then c as int - 'A' as int + 10
    else 36
  }

  // The length of the leading run of digits of the radix.
  function DigitRun(s: string, radix: nat): (n: nat)
    ensures n <= |s|
  {
    if |s| > 0 && DigitValue(s[0]) < radix then 1 + DigitRun(s[1..], radix) else 0
  }

  // The run is all digits and stops at the first non-digit.
  lemma {:induction false} DigitRunSpec(s: string, radix: nat)
    ensures forall k :: 0 <= k < DigitRun(s, radix) ==> DigitValue(s[k]) < radix
    ensures DigitRun(s, radix) < |s| ==> DigitValue(s[DigitRun(s, radix)]) >= radix
  {
    if |s| > 0 && DigitValue(s[0]) < radix {
      DigitRunSpec(s[1..], radix);
      forall k | 0 < k < DigitRun(s, radix) ensures DigitValue(s[k]) < radix {
        assert s[k] == s[1..][k - 1];
      }
    }
  }

  function DigitsValue(s: string, radix: nat): nat
  {
    if |s| == 0 then 0
    else DigitsValue(s[..|s| - 1], radix) * radix + (if DigitValue(s[|s| - 1]) < radix then DigitValue(s[|s| - 1]) else 0)
  }

  // parseInt(v) with no radix argument: leading white space is skipped, an
  // optional sign read, "0x" or "0X" selects base 16, and the longest run of
  // digits is read; no digit at all, or an undefined argument, gives NaN.
  function ParseInt(v: Option<string>): JsNum
  {
    if v.None? then NaN
    else
      var t := TrimStart(v.value);
      var negative := |t| > 0 && t[0] == '-';
      var unsigned := if |t| > 0 && (t[0] == '-' || t[0] == '+') then t[1..] else t;
      match ParseMagnitude(unsigned)
      case None => NaN
      case Some(m) => Num(if negative then -(m as int) else m)
  }

  // The digits after the sign: "0x" or "0X" selects base 16, then the
  // longest run of digits is read, and none at all reads as nothing.
  function ParseMagnitude(u: string): Option<nat>
  {
    var hex := |u| >= 2 && u[0] == '0' && (u[1] == 'x' || u[1] == 'X');
    var radix := if hex then 16 else 10;
    var body := if hex then u[2..] else u;
    var n := DigitRun(body, radix);
    if n == 0 then None else Some(DigitsValue(body[..n], radix))
  }

  function DigitChar(d: nat): (c: char)
    requires d < 10
    ensures DigitValue(c) == d
  {
    ('0' as int + d) as char
  }

  // The decimal numeral of n, as String(n) prints it.
  predicate AllDigits(s: string)
  {
    forall k :: 0 <= k < |s| ==> DigitValue(s[k]) < 10
  }

  lemma {:induction false} AllDigitsRun(s: string)
    requires AllDigits(s)
    ensures DigitRun(s, 10) == |s|
  {
    if |s| > 0 {
      assert AllDigits(s[1..]) by {
        forall k | 0 <= k < |s| - 1 ensures DigitValue(s[1..][k]) < 10 {
          assert s[1..][k] == s[k + 1];
        }
      }
      AllDigitsRun(s[1..]);
    }
  }

  function Decimal(n: nat): (s: string)
    ensures |s| > 0 && AllDigits(s)
  {
    if n < 10 then [DigitChar(n)] else Decimal(n / 10) + [DigitChar(n % 10)]
  }

  lemma {:induction false} DecimalValue(n: nat)
    ensures DigitsValue(Decimal(n), 10) == n
  {
    if n >= 10 {
      DecimalValue(n / 10);
      var s := Decimal(n);
      assert s[..|s| - 1] == Decimal(n / 10);
    }
  }

  // A run of decimal digits: a second character, being a digit, cannot be
  // the x of a hexadecimal prefix.
  lemma MagnitudeOfDigits(s: string)
    requires |s| > 0 && DigitRun(s, 10) == |s|
    ensures ParseMagnitude(s) == Some(DigitsValue(s, 10))
  {
    if |s| >= 2 {
      assert DigitValue(s[1]) < 10;
    }
    assert s[..|s|] == s;
  }

  lemma DigitFirst(s: string)
    requires |s| > 0 && DigitValue(s[0]) < 10
    ensures TrimStart(s) == s && s[0] != '-' && s[0] != '+'
  {
  }

  lemma ParseUnsignedText(s: string)
    requires TrimStart(s) == s && |s| > 0 && s[0] != '-' && s[0] != '+' && ParseMagnitude(s).Some?
    ensures ParseInt(Some(s)) == Num(ParseMagnitude(s).value)
  {
  }

  lemma ParseNegativeText(s: string)
    requires ParseMagnitude(s).Some?
    ensures ParseInt(Some("-" + s)) == Num(-(ParseMagnitude(s).value as int))
  {
    var t := "-" + s;
    assert TrimStart(t) == t;
    assert t[1..] == s;
  }

  lemma ParseDigits(s: string)
    requires |s| > 0 && DigitRun(s, 10) == |s|
    ensures ParseInt(Some(s)) == Num(DigitsValue(s, 10))
  {
    DigitFirst(s);
    MagnitudeOfDigits(s);
    ParseUnsignedText(s);
  }

  lemma ParseNegativeDigits(s: string)
    requires |s| > 0 && DigitRun(s, 10) == |s|
    ensures ParseInt(Some("-" + s)) == Num(-(DigitsValue(s, 10) as int))
  {
    MagnitudeOfDigits(s);
    ParseNegativeText(s);
  }

  // parseInt reads back the numeral of every natural number, and of its
  // negation.
  lemma ParseDecimal(n: nat)
    ensures ParseInt(Some(Decimal(n))) == Num(n)
    ensures ParseInt(Some("-" + Decimal(n))) == Num(-(n as int))
  {
    DecimalValue(n);
    AllDigitsRun(Decimal(n));
    ParseDigits(Decimal(n));
    ParseNegativeDigits(Decimal(n));
  }

  // ---- answer strings --------------------------------------------------

  function FirstIndex(s: string, c: char): (r: Option<nat>)
    ensures r.Some? ==> r.value < |s|
  {
    if |s| == 0 then None
    else if s[0] == c then Some(0)
    else match FirstIndex(s[1..], c)
      case Some(k) => Some(k + 1)
      case None => None
  }

  // The index of the first c, or none when c does not occur.
  lemma {:induction false} FirstIndexSpec(s: string, c: char)
    ensures FirstIndex(s, c).Some? ==> s[FirstIndex(s, c).value] == c && forall k :: 0 <= k < FirstIndex(s, c).value ==> s[k] != c
    ensures FirstIndex(s, c).None? ==> forall k :: 0 <= k < |s| ==> s[k] != c
  {
    if |s| > 0 && s[0] != c {
      FirstIndexSpec(s[1..], c);
      assert forall k :: 1 <= k < |s| ==> s[k] == s[1..][k - 1];
    }
  }

  // The occurrence found at i when nothing before it matches.
  lemma {:induction false} FirstIndexAt(s: string, c: char, i: nat)
    requires i < |s| && s[i] == c && forall k :: 0 <= k < i ==> s[k] != c
    ensures FirstIndex(s, c) == Some(i)
  {
    if i > 0 {
      FirstIndexAt(s[1..], c, i - 1);
    }
  }

  // The first two fields of answer.split('_'): the type, and the value,
  // undefined when the answer has no '_'.
  function TypeOf(answer: string): string
  {
    match FirstIndex(answer, '_')
    case Some(i) => answer[..i]
    case None => answer
  }

  function ValueOf(answer: string): Option<string>
  {
    match FirstIndex(answer, '_')
    case None => None
    case Some(i) =>
      var rest := answer[i + 1..];
      match FirstIndex(rest, '_')
      case Some(j) => Some(rest[..j])
      case None => Some(rest)
  }

  lemma SplitAnswer(a: Axis, n: nat)
    ensures TypeOf(Label(a) + "_" + Decimal(n)) == Label(a)
    ensures ValueOf(Label(a) + "_" + Decimal(n)) == Some(Decimal(n))
  {
    var s := Label(a) + "_" + Decimal(n);
    FirstIndexAt(s, '_', 1);
    assert s[2..] == Decimal(n);
    FirstIndexSpec(Decimal(n), '_');
  }

  // ---- the scores object -------------------------------------------------

  // An object as its list of properties, in the order Object.keys gives.
  datatype Entry = Entry(key: string, value: JsNum)

  function IndexOf(o: seq<Entry>, k: string): (r: Option<nat>)
    ensures r.Some? ==> r.value < |o| && o[r.value].key == k
  {
    if |o| == 0 then None
    else if o[|o| - 1].key == k then Some(|o| - 1)
    else IndexOf(o[..|o| - 1], k)
  }

  lemma {:induction false} NoKeyNone(o: seq<Entry>, k: string)
    requires forall j :: 0 <= j < |o| ==> o[j].key != k
    ensures IndexOf(o, k).None?
  {
    if |o| > 0 {
      NoKeyNone(o[..|o| - 1], k);
    }
  }

  lemma {:induction false} IndexOfNone(o: seq<Entry>, k: string)
    requires IndexOf(o, k).None?
    ensures forall j :: 0 <= j < |o| ==> o[j].key != k
  {
    if |o| > 0 {
      IndexOfNone(o[..|o| - 1], k);
      assert forall j :: 0 <= j < |o| - 1 ==> o[j] == o[..|o| - 1][j];
    }
  }

  predicate UniqueKeys(o: seq<Entry>)
  {
    forall j, k :: 0 <= j < k < |o| ==> o[j].key != o[k].key
  }

  // An array index: the canonical decimal form of an integer below
  // 2^32 - 1 ("0", or digits without a leading zero).
  predicate IsArrayIndex(k: string)
  {
    |k| > 0 && AllDigits(k) && (k[0] != '0' || |k| == 1) && DigitsValue(k, 10) < 0xFFFF_FFFF
  }

  // The order in which ECMAScript lists an object's own keys: array
  // indices first, in ascending numeric order, then the other keys in the
  // order they were added.
  predicate IndexKeysFirst(o: seq<Entry>)
  {
    forall j, j' :: 0 <= j < j' < |o| && IsArrayIndex(o[j'].key) ==>
      IsArrayIndex(o[j].key) && DigitsValue(o[j].key, 10) <= DigitsValue(o[j'].key, 10)
  }

  // Where a new array-index key goes: after the index keys below it.
  function IndexSlot(o: seq<Entry>, k: string): (p: nat)
    ensures p <= |o|
  {
    if |o| > 0 && IsArrayIndex(o[0].key) && DigitsValue(o[0].key, 10) < DigitsValue(k, 10) then 1 + IndexSlot(o[1..], k)
    else 0
  }

  // The keys before the slot are the index keys below k; the key at the
  // slot, if any, is not one.
  lemma {:induction false} IndexSlotSpec(o: seq<Entry>, k: string)
    ensures forall j :: 0 <= j < IndexSlot(o, k) ==> IsArrayIndex(o[j].key) && DigitsValue(o[j].key, 10) < DigitsValue(k, 10)
    ensures IndexSlot(o, k) < |o| ==>
      !(IsArrayIndex(o[IndexSlot(o, k)].key) && DigitsValue(o[IndexSlot(o, k)].key, 10) < DigitsValue(k, 10))
  {
    if |o| > 0 && IsArrayIndex(o[0].key) && DigitsValue(o[0].key, 10) < DigitsValue(k, 10) {
      IndexSlotSpec(o[1..], k);
      forall j | 0 < j < IndexSlot(o, k) ensures IsArrayIndex(o[j].key) && DigitsValue(o[j].key, 10) < DigitsValue(k, 10) {
        assert o[j] == o[1..][j - 1];
      }
      if IndexSlot(o, k) < |o| {
        assert o[IndexSlot(o, k)] == o[1..][IndexSlot(o[1..], k)];
      }
    }
  }

  // o[k] = v: an existing property keeps its place; a new one goes last,
  // unless its key is an array index, which takes its place among the
  // index keys.
  function Put(o: seq<Entry>, k: string, v: JsNum): (r: seq<Entry>)
  {
    match IndexOf(o, k)
    case Some(j) => o[j := Entry(k, v)]
    case None =>
      if IsArrayIndex(k) then o[..IndexSlot(o, k)] + [Entry(k, v)] + o[IndexSlot(o, k)..]
      else o + [Entry(k, v)]
  }

  // o[k], where an absent property reads as undefined, and undefined plus
  // a number is NaN.
  function Read(o: seq<Entry>, k: string): JsNum
  {
    match IndexOf(o, k)
    case Some(j) => o[j].value
    case None => NaN
  }

  lemma {:induction false} UniqueIndex(o: seq<Entry>, j: nat, k: string)
    requires UniqueKeys(o) && j < |o| && o[j].key == k
    ensures IndexOf(o, k) == Some(j)
  {
    if j < |o| - 1 {
      var p := o[..|o| - 1];
      assert UniqueKeys(p) by {
        forall a, b | 0 <= a < b < |p| ensures p[a].key != p[b].key {
          assert p[a] == o[a] && p[b] == o[b];
        }
      }
      assert p[j] == o[j];
      UniqueIndex(p, j, k);
    }
  }

  // A property inserted at p: those before it stay, those after move on
  // by one.
  lemma InsertLayout(o: seq<Entry>, p: nat, e: Entry)
    requires p <= |o|
    ensures var r := o[..p] + [e] + o[p..];
      |r| == |o| + 1 && r[p] == e
      && (forall j :: 0 <= j < p ==> r[j] == o[j])
      && (forall j :: p < j < |r| ==> r[j] == o[j - 1])
  {
  }

  // o[k] = v keeps the keys unique, adding k when it was absent.
  lemma PutKeys(o: seq<Entry>, k: string, v: JsNum)
    requires UniqueKeys(o)
    ensures UniqueKeys(Put(o, k, v))
    ensures |Put(o, k, v)| == if IndexOf(o, k).Some? then |o| else |o| + 1
  {
    if IndexOf(o, k).None? {
      IndexOfNone(o, k);
      if IsArrayIndex(k) {
        var r := Put(o, k, v);
        var p := IndexSlot(o, k);
        InsertLayout(o, p, Entry(k, v));
        forall a, b | 0 <= a < b < |r| ensures r[a].key != r[b].key {
          if a != p && b != p {
            var a' := if a < p then a else a - 1;
            var b' := if b < p then b else b - 1;
            assert r[a] == o[a'] && r[b] == o[b'] && a' < b';
          } else if a == p {
            assert r[b] == o[b - 1];
          } else {
            assert r[a] == o[a];
          }
        }
      }
    }
  }

  // o[k] = v keeps the keys in the order ECMAScript lists them.
  lemma PutOrder(o: seq<Entry>, k: string, v: JsNum)
    requires UniqueKeys(o) && IndexKeysFirst(o)
    ensures IndexKeysFirst(Put(o, k, v))
  {
    var r := Put(o, k, v);
    match IndexOf(o, k)
    case Some(i) =>
      assert forall j :: 0 <= j < |r| ==> r[j].key == o[j].key;
    case None =>
      if IsArrayIndex(k) {
        var p := IndexSlot(o, k);
        IndexSlotSpec(o, k);
        InsertLayout(o, p, Entry(k, v));
        forall j, j' | 0 <= j < j' < |r| && IsArrayIndex(r[j'].key)
          ensures IsArrayIndex(r[j].key) && DigitsValue(r[j].key, 10) <= DigitsValue(r[j'].key, 10)
        {
          if j' < p {
            assert r[j] == o[j] && r[j'] == o[j'];
          } else if j' == p {
            assert r[j] == o[j];
          } else if j < p {
            assert r[j] == o[j] && r[j'] == o[j' - 1];
          } else if j == p {
            assert r[j'] == o[j' - 1];
            assert IsArrayIndex(o[p].key) && DigitsValue(o[p].key, 10) <= DigitsValue(o[j' - 1].key, 10) by {
              if p < j' - 1 {
                assert IsArrayIndex(o[j' - 1].key);
              }
            }
          } else {
            assert r[j] == o[j - 1] && r[j'] == o[j' - 1];
          }
        }
      } else {
        assert forall j :: 0 <= j < |o| ==> r[j] == o[j];
      }
  }

  // After o[k] = v, reading k gives v and reading any other key what it
  // gave before.
  lemma ReadPut(o: seq<Entry>, k: string, v: JsNum, t: string)
    requires UniqueKeys(o)
    ensures Read(Put(o, k, v), t) == if t == k then v else Read(o, t)
  {
    PutKeys(o, k, v);
    var r := Put(o, k, v);
    match IndexOf(o, k)
    case Some(j) =>
      UniqueIndex(r, j, k);
      if t != k && IndexOf(o, t).Some? {
        UniqueIndex(r, IndexOf(o, t).value, t);
      } else if t != k {
        IndexOfNone(o, t);
        NoKeyNone(r, t);
      }
    case None =>
      var p := if IsArrayIndex(k) then IndexSlot(o, k) else |o|;
      assert r == o[..p] + [Entry(k, v)] + o[p..];
      InsertLayout(o, p, Entry(k, v));
      ReadInsert(o, r, p, Entry(k, v), t);
  }

  // Reading r, which is o with a property under an absent key inserted at
  // place p, gives that property's value for its key; every other key
  // reads as before.
  lemma ReadInsert(o: seq<Entry>, r: seq<Entry>, p: nat, e: Entry, t: string)
    requires UniqueKeys(o) && UniqueKeys(r) && IndexOf(o, e.key).None?
    requires p < |r| == |o| + 1 && r[p] == e
    requires forall j :: 0 <= j < p ==> r[j] == o[j]
    requires forall j :: p < j < |r| ==> r[j] == o[j - 1]
    ensures Read(r, t) == if t == e.key then e.value else Read(o, t)
  {
    UniqueIndex(r, p, e.key);
    if t != e.key && IndexOf(o, t).Some? {
      var i := IndexOf(o, t).value;
      UniqueIndex(r, if i < p then i else i + 1, t);
    } else if t != e.key {
      IndexOfNone(o, t);
      forall i | 0 <= i < |r| ensures r[i].key != t {
        if i < p {
          assert r[i] == o[i];
        } else if i > p {
          assert r[i] == o[i - 1];
        }
      }
      NoKeyNone(r, t);
    }
  }

  // The keys that are not array indices, in order.
  function OtherKeys(o: seq<Entry>): seq<string>
  {
    if |o| == 0 then []
    else OtherKeys(o[..|o| - 1]) + (if IsArrayIndex(o[|o| - 1].key) then [] else [o[|o| - 1].key])
  }

  lemma {:induction false} OtherKeysAppend(a: seq<Entry>, b: seq<Entry>)
    ensures OtherKeys(a + b) == OtherKeys(a) + OtherKeys(b)
    decreases |b|
  {
    if |b| == 0 {
      assert a + b == a;
    } else {
      var b' := b[..|b| - 1];
      assert (a + b)[..|a + b| - 1] == a + b';
      OtherKeysAppend(a, b');
    }
  }

  lemma {:induction false} OtherKeysSameKeys(o: seq<Entry>, r: seq<Entry>)
    requires |o| == |r| && forall j :: 0 <= j < |o| ==> o[j].key == r[j].key
    ensures OtherKeys(o) == OtherKeys(r)
    decreases |o|
  {
    if |o| > 0 {
      OtherKeysSameKeys(o[..|o| - 1], r[..|r| - 1]);
    }
  }

  // An array-index key put last adds nothing to the other keys.
  lemma OtherKeysSnocIndex(a: seq<Entry>, e: Entry)
    requires IsArrayIndex(e.key)
    ensures OtherKeys(a + [e]) == OtherKeys(a)
  {
    var ae := a + [e];
    assert ae[..|ae| - 1] == a && ae[|ae| - 1] == e;
  }

  // A new array-index key leaves the other keys as they were.
  lemma InsertOtherKeys(o: seq<Entry>, p: nat, e: Entry)
    requires p <= |o| && IsArrayIndex(e.key)
    ensures OtherKeys(o[..p] + [e] + o[p..]) == OtherKeys(o)
  {
    OtherKeysSkipIndex(o[..p], o[p..], e);
    assert o[..p] + o[p..] == o;
  }

  lemma OtherKeysSkipIndex(a: seq<Entry>, b: seq<Entry>, e: Entry)
    requires IsArrayIndex(e.key)
    ensures OtherKeys(a + [e] + b) == OtherKeys(a + b)
  {
    OtherKeysSnocIndex(a, e);
    OtherKeysAppend(a + [e], b);
    OtherKeysAppend(a, b);
  }

  // o[k] = v adds k to the other keys, at the end, exactly when k is new
  // and no array index.
  lemma PutOtherKeys(o: seq<Entry>, k: string, v: JsNum)
    ensures OtherKeys(Put(o, k, v)) ==
      if IndexOf(o, k).None? && !IsArrayIndex(k) then OtherKeys(o) + [k] else OtherKeys(o)
  {
    var r := Put(o, k, v);
    if IndexOf(o, k).Some? {
      OtherKeysSameKeys(o, r);
    } else if IsArrayIndex(k) {
      InsertOtherKeys(o, IndexSlot(o, k), Entry(k, v));
    } else {
      assert r[..|r| - 1] == o;
    }
  }

  const InitialScores: seq<Entry> := [Entry("D", Num(0)), Entry("I", Num(0)), Entry("S", Num(0)), Entry("C", Num(0))]

  // One answer as the loop reads it: const [type, value] = answer.split('_'),
  // then parseInt(value).
  datatype Parsed = Parsed(key: string, value: JsNum)

  function ParseAnswer(answer: string): Parsed
  {
    Parsed(TypeOf(answer), ParseInt(ValueOf(answer)))
  }

  function ParseAll(answers: seq<string>): (ps: seq<Parsed>)
    ensures |ps| == |answers|
  {
    if |answers| == 0 then []
    else ParseAll(answers[..|answers| - 1]) + [ParseAnswer(answers[|answers| - 1])]
  }

  lemma {:induction false} ParseAllAt(answers: seq<string>, k: nat)
    requires k < |answers|
    ensures ParseAll(answers)[k] == ParseAnswer(answers[k])
  {
    if k < |answers| - 1 {
      var init := answers[..|answers| - 1];
      ParseAllAt(init, k);
    }
  }

  // An answer "T_n" written with an axis label and a decimal number is read
  // as that axis and that number.
  lemma GeneratedAnswer(a: Axis, n: nat)
    ensures ParseAnswer(Label(a) + "_" + Decimal(n)) == Parsed(Label(a), Num(n))
  {
    SplitAnswer(a, n);
    ParseDecimal(n);
  }

  // this.scores[type] += parseInt(value)
  function AddParsed(o: seq<Entry>, p: Parsed): seq<Entry>
  {
    Put(o, p.key, JsAdd(Read(o, p.key), p.value))
  }

  // The scores after the given answers, from a fresh { D: 0, I: 0, S: 0, C: 0 }.
  function Fold(ps: seq<Parsed>): (o: seq<Entry>)
    ensures |o| >= 4
  {
    if |ps| == 0 then InitialScores
    else AddParsed(Fold(ps[..|ps| - 1]), ps[|ps| - 1])
  }

  function Accumulate(answers: seq<string>): (o: seq<Entry>)
    ensures |o| >= 4
  {
    Fold(ParseAll(answers))
  }

  // One more answer is one more += on the object built so far.
  lemma AccumulateStep(answers: seq<string>, x: string)
    ensures Accumulate(answers + [x]) == AddParsed(Accumulate(answers), ParseAnswer(x))
  {
    assert (answers + [x])[..|answers|] == answers;
    var ps := ParseAll(answers);
    assert ParseAll(answers + [x]) == ps + [ParseAnswer(x)];
    assert (ps + [ParseAnswer(x)])[..|ps|] == ps;
  }

  // The keys stay unique and in ECMAScript's order, and the keys that are
  // not array indices start with D, I, S, C.
  lemma {:induction false} FoldKeys(ps: seq<Parsed>)
    ensures UniqueKeys(Fold(ps)) && IndexKeysFirst(Fold(ps))
    ensures |OtherKeys(Fold(ps))| >= 4 && OtherKeys(Fold(ps))[..4] == ["D", "I", "S", "C"]
  {
    if |ps| > 0 {
      var prev := Fold(ps[..|ps| - 1]);
      var p := ps[|ps| - 1];
      var v := JsAdd(Read(prev, p.key), p.value);
      FoldKeys(ps[..|ps| - 1]);
      PutOrder(prev, p.key, v);
      PutOtherKeys(prev, p.key, v);
    } else {
      InitialOtherKeys();
    }
    FoldUnique(ps);
  }

  lemma {:induction false} FoldUnique(ps: seq<Parsed>)
    ensures UniqueKeys(Fold(ps))
  {
    if |ps| > 0 {
      var prev := Fold(ps[..|ps| - 1]);
      var p := ps[|ps| - 1];
      FoldUnique(ps[..|ps| - 1]);
      PutKeys(prev, p.key, JsAdd(Read(prev, p.key), p.value));
    }
  }

  lemma InitialOtherKeys()
    ensures IndexKeysFirst(InitialScores) && OtherKeys(InitialScores) == ["D", "I", "S", "C"]
  {
    var o := InitialScores;
    assert !IsArrayIndex("D") by { assert DigitValue('D') == 13; }
    assert !IsArrayIndex("I") by { assert DigitValue('I') == 18; }
    assert !IsArrayIndex("S") by { assert DigitValue('S') == 28; }
    assert !IsArrayIndex("C") by { assert DigitValue('C') == 12; }
    assert o[..1][..0] == [];
    assert OtherKeys(o[..1]) == ["D"];
    assert o[..2][..1] == o[..1];
    assert OtherKeys(o[..2]) == ["D", "I"];
    assert o[..3][..2] == o[..2];
    assert OtherKeys(o[..3]) == ["D", "I", "S"];
    assert o[..4][..3] == o[..3] && o[..4] == o;
  }

  // Object.values(scores).reduce((a, b) => a + b, 0)
  function TotalOf(o: seq<Entry>): JsNum
  {
    if |o| == 0 then Num(0) else JsAdd(TotalOf(o[..|o| - 1]), o[|o| - 1].value)
  }

  // Object.keys(scores).reduce((a, b) => scores[a] > scores[b] ? a : b)
  // over the first n properties: the index of the key it settles on.
  function ReduceIndex(o: seq<Entry>, n: nat): (r: nat)
    requires 1 <= n <= |o|
    ensures r < n
  {
    if n == 1 then 0
    else
      var a := ReduceIndex(o, n - 1);
      if JsGreater(o[a].value, o[n - 1].value) then a else n - 1
  }

  // getTypeDescription: descriptions[type] || descriptions.D. Each axis's
  // own label gets that axis's description; a text that is no label gets
  // D's.
  function DescriptionFor(t: string): (a: Axis)
    ensures forall x: Axis :: t == Label(x) ==> a == x
    ensures (forall x: Axis :: t != Label(x)) ==> a == D
    ensures Label(a) == t || a == D
  {
    match AxisOf(t)
    case Some(a) => a
    case None => D
  }

  datatype Outcome = Outcome(scores: seq<Entry>, total: JsNum, primaryType: string, description: Axis)

  function OutcomeOf(answers: seq<string>): Outcome
  {
    var o := Accumulate(answers);
    var primary := o[ReduceIndex(o, |o|)].key;
    Outcome(o, TotalOf(o), primary, DescriptionFor(primary))
  }

  class DISCTest {
    var currentQuestion: int
    // Object.values(this.answers), in key order.
    var answers: seq<string>
    var scores: seq<Entry>

    constructor ()
      ensures currentQuestion == 0 && answers == [] && scores == InitialScores
    {
      currentQuestion := 0;
      answers := [];
      scores := InitialScores;
    }

    // calculateResult: the scores are rebuilt from zero on every call, so
    // the outcome depends on the answers alone.
    method CalculateResult() returns (r: Outcome)
      modifies this`scores
      ensures scores == Accumulate(answers) && r == OutcomeOf(answers)
    {
      scores := InitialScores;
      for j := 0 to |answers|
        invariant scores == Accumulate(answers[..j])
      {
        assert answers[..j + 1] == answers[..j] + [answers[j]];
        AccumulateStep(answers[..j], answers[j]);
        var t := TypeOf(answers[j]);
        scores := Put(scores, t, JsAdd(Read(scores, t), ParseInt(ValueOf(answers[j]))));
      }
      assert answers[..|answers|] == answers;
      var total := TotalOf(scores);
      var primary := PrimaryType(scores);
      r := Outcome(scores, total, primary, DescriptionFor(primary));
    }
  }

  // Object.keys(scores).reduce((a, b) => scores[a] > scores[b] ? a : b):
  // the key of the property the reduce settles on.
  method PrimaryType(o: seq<Entry>) returns (primary: string)
    requires |o| > 0
    ensures primary == o[ReduceIndex(o, |o|)].key
  {
    primary := o[0].key;
    var best := 0;
    for j := 1 to |o|
      invariant best == ReduceIndex(o, j) && primary == o[best].key
    {
      if !JsGreater(o[best].value, o[j].value) {
        best := j;
        primary := o[j].key;
      }
    }
  }

  // ---- what the scorer computes --------------------------------------------

  // An answer "T_v" with T one of D, I, S, C and v a number parseInt reads.
  predicate WellFormed(p: Parsed)
  {
    AxisOf(p.key).Some? && p.value.Num?
  }

  predicate AllWellFormed(ps: seq<Parsed>)
  {
    forall k :: 0 <= k < |ps| ==> WellFormed(ps[k])
  }

  function PointsOf(p: Parsed): int
  {
    if p.value.Num? then p.value.n else 0
  }

  // The sum of the values of the answers of type a.
  function SumFor(ps: seq<Parsed>, a: Axis): int
  {
    if |ps| == 0 then 0
    else SumFor(ps[..|ps| - 1], a) + (if ps[|ps| - 1].key == Label(a) then PointsOf(ps[|ps| - 1]) else 0)
  }

  function SumAll(ps: seq<Parsed>): int
  {
    if |ps| == 0 then 0 else SumAll(ps[..|ps| - 1]) + PointsOf(ps[|ps| - 1])
  }

  function SumScores(ps: seq<Parsed>): Scores
  {
    Scores(SumFor(ps, D), SumFor(ps, I), SumFor(ps, S), SumFor(ps, C))
  }

  // The object { D: d, I: i, S: s, C: c }, keys in that order.
  function ObjectOf(sc: Scores): seq<Entry>
  {
    [Entry("D", Num(sc.d)), Entry("I", Num(sc.i)), Entry("S", Num(sc.s)), Entry("C", Num(sc.c))]
  }

  lemma ObjectKeys(sc: Scores)
    ensures UniqueKeys(ObjectOf(sc))
    ensures forall a :: ObjectOf(sc)[Rank(a)] == Entry(Label(a), Num(sc.Get(a)))
  {
  }

  // One well-formed answer on such an object adds its value to its axis.
  lemma AddToObject(sc: Scores, p: Parsed)
    requires WellFormed(p)
    ensures AddParsed(ObjectOf(sc), p) == ObjectOf(sc.Add(AxisOf(p.key).value, p.value.n))
  {
    var b := AxisOf(p.key).value;
    ObjectKeys(sc);
    UniqueIndex(ObjectOf(sc), Rank(b), Label(b));
  }

  // The sums after one more well-formed answer.
  lemma SumScoresStep(ps: seq<Parsed>, p: Parsed)
    requires WellFormed(p)
    ensures SumScores(ps + [p]) == SumScores(ps).Add(AxisOf(p.key).value, p.value.n)
    ensures SumAll(ps + [p]) == SumAll(ps) + p.value.n
  {
    assert (ps + [p])[..|ps|] == ps;
    var b := AxisOf(p.key).value;
    forall a ensures SumFor(ps + [p], a) == SumFor(ps, a) + (if a == b then p.value.n else 0) {
      AxisOfLabel(a);
    }
  }

  // With well-formed answers the object is exactly { D, I, S, C }, each
  // holding the sum of the values of its answers.
  lemma {:induction false} WellFormedScores(ps: seq<Parsed>)
    requires AllWellFormed(ps)
    ensures Fold(ps) == ObjectOf(SumScores(ps))
  {
    if |ps| > 0 {
      var init := ps[..|ps| - 1];
      var p := ps[|ps| - 1];
      assert ps == init + [p];
      assert AllWellFormed(init) by {
        forall k | 0 <= k < |init| ensures WellFormed(init[k]) {
          assert init[k] == ps[k];
        }
      }
      WellFormedScores(init);
      AddToObject(SumScores(init), p);
      SumScoresStep(init, p);
    }
  }

  lemma {:induction false} SumAllAxes(ps: seq<Parsed>)
    requires AllWellFormed(ps)
    ensures SumAll(ps) == SumScores(ps).Total()
  {
    if |ps| > 0 {
      var init := ps[..|ps| - 1];
      var p := ps[|ps| - 1];
      assert ps == init + [p];
      assert AllWellFormed(init) by {
        forall k | 0 <= k < |init| ensures WellFormed(init[k]) {
          assert init[k] == ps[k];
        }
      }
      SumAllAxes(init);
      SumScoresStep(init, p);
    }
  }

  lemma TotalOfObject(sc: Scores)
    ensures TotalOf(ObjectOf(sc)) == Num(sc.Total())
  {
    var o := ObjectOf(sc);
    assert o[..1][..0] == [];
    assert TotalOf(o[..1]) == Num(sc.d);
    assert o[..2][..1] == o[..1];
    assert TotalOf(o[..2]) == Num(sc.d + sc.i);
    assert o[..3][..2] == o[..2];
    assert TotalOf(o[..3]) == Num(sc.d + sc.i + sc.s);
    assert o[..4][..3] == o[..3] && o[..4] == o;
  }

  // The total is the sum of all values.
  lemma WellFormedTotal(answers: seq<string>)
    requires AllWellFormed(ParseAll(answers))
    ensures OutcomeOf(answers).total == Num(SumAll(ParseAll(answers)))
  {
    var ps := ParseAll(answers);
    WellFormedScores(ps);
    SumAllAxes(ps);
    TotalOfObject(SumScores(ps));
  }

  // reduce over the first n keys of { D, I, S, C } settles on the last of
  // them with the greatest score.
  lemma {:induction false} ReducePrefix(sc: Scores, n: nat)
    requires 1 <= n <= 4
    ensures ReduceIndex(ObjectOf(sc), n) < n
    ensures forall j :: 0 <= j < n ==> sc.Get(Axes[j]) <= sc.Get(Axes[ReduceIndex(ObjectOf(sc), n)])
    ensures forall j :: ReduceIndex(ObjectOf(sc), n) < j < n ==> sc.Get(Axes[j]) < sc.Get(Axes[ReduceIndex(ObjectOf(sc), n)])
  {
    if n > 1 {
      ReducePrefix(sc, n - 1);
      var o := ObjectOf(sc);
      var a := ReduceIndex(o, n - 1);
      assert o[a].value == Num(sc.Get(Axes[a])) && o[n - 1].value == Num(sc.Get(Axes[n - 1]));
    }
  }

  lemma ReduceObject(sc: Scores)
    ensures ReduceIndex(ObjectOf(sc), 4) < 4
    ensures IsLastMax(sc, Axes[ReduceIndex(ObjectOf(sc), 4)])
  {
    ReducePrefix(sc, 4);
    var r := ReduceIndex(ObjectOf(sc), 4);
    forall b: Axis ensures sc.Get(b) <= sc.Get(Axes[r]) && (Rank(b) > r ==> sc.Get(b) < sc.Get(Axes[r])) {
      AxesInRankOrder(b);
    }
    AxesInRankOrder(Axes[r]);
  }

  // The primary type is the last axis, in D, I, S, C order, of maximal sum,
  // and the description shown is that axis's.
  lemma WellFormedPrimary(answers: seq<string>)
    requires AllWellFormed(ParseAll(answers))
    ensures exists a :: IsLastMax(SumScores(ParseAll(answers)), a) && OutcomeOf(answers).primaryType == Label(a)
    ensures OutcomeOf(answers).description == AxisOf(OutcomeOf(answers).primaryType).value
  {
    var ps := ParseAll(answers);
    var sc := SumScores(ps);
    WellFormedScores(ps);
    ReduceObject(sc);
    var a := Axes[ReduceIndex(ObjectOf(sc), 4)];
    ObjectKeys(sc);
    AxesInRankOrder(a);
    assert OutcomeOf(answers).primaryType == Label(a);
    AxisOfLabel(a);
  }

  // An answer of a type the object does not hold yet, and that is no array
  // index, adds that key last, holding NaN (undefined plus a number).
  lemma UnknownTypeAppends(answers: seq<string>, x: string)
    requires IndexOf(Accumulate(answers), TypeOf(x)).None? && !IsArrayIndex(TypeOf(x))
    ensures Accumulate(answers + [x]) == Accumulate(answers) + [Entry(TypeOf(x), NaN)]
  {
    AccumulateStep(answers, x);
  }

  // An answer whose new type is an array index puts that key, holding NaN,
  // ahead of every key that is not one, D, I, S and C included: Object.keys
  // lists it before them.
  lemma UnknownIndexTypeFirst(answers: seq<string>, x: string)
    requires IndexOf(Accumulate(answers), TypeOf(x)).None? && IsArrayIndex(TypeOf(x))
    ensures var o := Accumulate(answers);
      var p := IndexSlot(o, TypeOf(x));
      Accumulate(answers + [x]) == o[..p] + [Entry(TypeOf(x), NaN)] + o[p..]
      && forall j :: 0 <= j < p ==> IsArrayIndex(o[j].key)
  {
    AccumulateStep(answers, x);
    IndexSlotSpec(Accumulate(answers), TypeOf(x));
  }

  // For instance the single answer "5_3" makes scores["5"] NaN and lists
  // it first, so the reduce compares NaN with D's 0, moves on, and ends on
  // C; the description shown is C's.
  lemma IndexTypeEndsOnC()
    ensures OutcomeOf(["5_3"]).primaryType == "C" && OutcomeOf(["5_3"]).description == C
  {
    FiveFirst();
    var o := Accumulate(["5_3"]);
    assert ReduceIndex(o, 2) == 1;
    assert ReduceIndex(o, 3) == 2;
    assert ReduceIndex(o, 4) == 3;
    assert ReduceIndex(o, 5) == 4;
  }

  lemma FiveFirst()
    ensures Accumulate(["5_3"]) == [Entry("5", NaN)] + InitialScores
  {
    var p := ParseAnswer("5_3");
    FiveType();
    assert ParseAll(["5_3"]) == [p] by {
      assert ["5_3"][..0] == [];
    }
    assert Fold([p]) == AddParsed(InitialScores, p) by {
      assert [p][..0] == [];
    }
    NoKeyNone(InitialScores, "5");
    FivePut(JsAdd(Read(InitialScores, "5"), p.value));
  }

  lemma FivePut(v: JsNum)
    ensures Put(InitialScores, "5", v) == [Entry("5", v)] + InitialScores
  {
    assert IsArrayIndex("5") by {
      assert "5"[..0] == [];
    }
    assert !IsArrayIndex("D") by {
      assert DigitValue('D') == 13;
    }
    NoKeyNone(InitialScores, "5");
    assert IndexSlot(InitialScores, "5") == 0;
  }

  lemma FiveType()
    ensures TypeOf("5_3") == "5"
  {
    FirstIndexAt("5_3", '_', 1);
  }

  // A NaN score stays NaN whatever answers follow.
  lemma {:induction false} NaNSticks(answers: seq<string>, more: seq<string>, t: string)
    requires Read(Accumulate(answers), t) == NaN
    ensures Read(Accumulate(answers + more), t) == NaN
  {
    if |more| == 0 {
      assert answers + more == answers;
    } else {
      var init := more[..|more| - 1];
      var x := more[|more| - 1];
      assert Read(Accumulate((answers + init) + [x]), t) == NaN by {
        NaNSticks(answers, init, t);
        NaNStep(answers + init, x, t);
      }
      assert answers + more == (answers + init) + [x];
    }
  }

  // One more answer leaves a NaN property NaN.
  lemma NaNStep(answers: seq<string>, x: string, t: string)
    requires Read(Accumulate(answers), t) == NaN
    ensures Read(Accumulate(answers + [x]), t) == NaN
  {
    var o := Accumulate(answers);
    var p := ParseAnswer(x);
    AccumulateStep(answers, x);
    FoldUnique(ParseAll(answers));
    ReadPut(o, p.key, JsAdd(Read(o, p.key), p.value), t);
  }

  // ---- FormValidator.isValidEmail -------------------------------------------

  predicate Plain(c: char)
  {
    c != '@' && !IsJsSpace(c)
  }

  predicate AllPlain(s: string)
  {
    forall k :: 0 <= k < |s| ==> Plain(s[k])
  }

  // The language of /^[^\s@]+@[^\s@]+\.[^\s@]+$/: three non-empty runs of
  // characters other than white space and '@', joined by '@' and '.'.
  predicate MatchesEmailPattern(s: string)
  {
    exists i, j :: 0 < i && i + 1 < j && j + 1 < |s| && s[i] == '@' && s[j] == '.'
      && AllPlain(s[..i]) && AllPlain(s[i + 1..j]) && AllPlain(s[j + 1..])
  }

  // A '.' that is neither the first nor the last character.
  predicate InnerDot(r: string)
  {
    exists k :: 0 < k < |r| - 1 && r[k] == '.'
  }

  // isValidEmail, computed from the first '@': a non-empty local part, and
  // a domain free of '@' and white space with a '.' inside it.
  function IsValidEmail(email: string): bool
  {
    match FirstIndex(email, '@')
    case None => false
    case Some(i) => i > 0 && AllPlain(email[..i]) && AllPlain(email[i + 1..]) && InnerDot(email[i + 1..])
  }

  lemma ValidEmailMatches(email: string)
    requires IsValidEmail(email)
    ensures MatchesEmailPattern(email)
  {
    var i := FirstIndex(email, '@').value;
    FirstIndexSpec(email, '@');
    var r := email[i + 1..];
    var k :| 0 < k < |r| - 1 && r[k] == '.';
    var j := i + 1 + k;
    assert email[i + 1..j] == r[..k];
    assert email[j + 1..] == r[k + 1..];
    assert AllPlain(email[i + 1..j]) by {
      forall m | 0 <= m < k ensures Plain(r[..k][m]) {
        assert r[..k][m] == r[m];
      }
    }
    var t := r[k + 1..];
    assert AllPlain(t) by {
      forall m | 0 <= m < |t| ensures Plain(t[m]) {
        assert t[m] == r[k + 1 + m];
      }
    }
  }

  lemma PatternValid(email: string, i: nat, j: nat)
    requires 0 < i && i + 1 < j && j + 1 < |email| && email[i] == '@' && email[j] == '.'
    requires AllPlain(email[..i]) && AllPlain(email[i + 1..j]) && AllPlain(email[j + 1..])
    ensures IsValidEmail(email)
  {
    assert forall k :: 0 <= k < i ==> email[k] != '@' by {
      forall k | 0 <= k < i ensures email[k] != '@' {
        assert email[..i][k] == email[k];
      }
    }
    FirstIndexAt(email, '@', i);
    var r := email[i + 1..];
    assert AllPlain(r) by {
      forall k | 0 <= k < |r| ensures Plain(r[k]) {
        if k < j - i - 1 {
          assert r[k] == email[i + 1..j][k];
        } else if k > j - i - 1 {
          assert r[k] == email[j + 1..][k - (j - i)];
        }
      }
    }
    assert r[j - i - 1] == '.';
  }

  lemma IsValidEmailMatchesPattern(email: string)
    ensures IsValidEmail(email) <==> MatchesEmailPattern(email)
  {
    if IsValidEmail(email) {
      ValidEmailMatches(email);
    }
    if MatchesEmailPattern(email) {
      var i: nat, j: nat :| 0 < i && i + 1 < j && j + 1 < |email| && email[i] == '@' && email[j] == '.'
        && AllPlain(email[..i]) && AllPlain(email[i + 1..j]) && AllPlain(email[j + 1..]);
      PatternValid(email, i, j);
    }
  }

  // ---- StorageManager.clearAll ---------------------------------------------

  const Prefix: string := "disc_"

  class LocalStorage {
    var items: map<string, string>

    constructor (items: map<string, string>)
      ensures this.items == items
    {
      this.items := items;
    }

    // clearAll: over the key list Object.keys(localStorage) gave, every
    // key starting with "disc_" is removed and every other item kept.
    method ClearAll(keys: seq<string>)
      requires forall k :: k in items ==> k in keys
      modifies this
      ensures items == map k | k in old(items) && !JavaText.StartsWith(k, Prefix) :: old(items)[k]
    {
      for j := 0 to |keys|
        invariant items == map k | k in old(items) && !(k in keys[..j] && JavaText.StartsWith(k, Prefix)) :: old(items)[k]
      {
        if JavaText.StartsWith(keys[j], Prefix) {
          items := map k | k in items && k != keys[j] :: items[k];
        }
      }
      assert keys[..|keys|] == keys;
    }
  }
}
