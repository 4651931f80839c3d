// com.disc.util.SecurityUtil: the input predicates and the safe number
// parsers (the HTML escaping and the XSS pattern removal are left out).
module SecurityUtil {
  import opened Wrappers
  import opened JavaText

  const MaxUserNameLength: nat := 50
  const TokenLength: nat := 16
  const MaxDescriptionLength: nat := 500

  // The regex class \s without UNICODE_CHARACTER_CLASS: [ \t\n\x0B\f\r].
  predicate IsRegexSpace(c: char)
  {
    c == ' ' || c == '\t' || c == '\n' || c == '\U{000B}' || c == '\U{000C}' || c == '\r'
  }

  // The range 가-힣 of precomposed Hangul syllables.
  predicate IsHangulSyllable(c: char) { '가' <= c <= '힣' }

  predicate IsAsciiAlnum(c: char) { 'a' <= c <= 'z' || 'A' <= c <= 'Z' || '0' <= c <= '9' }

  // A character of [가-힣a-zA-Z0-9\s].
  predicate IsNameChar(c: char) { IsHangulSyllable(c) || IsAsciiAlnum(c) || IsRegexSpace(c) }

  // ---- isValidUserName / isValidToken / isValidDescription -----------------

  // isValidUserName: not null, not blank, at most 50 UTF-16 units, and
  // every character in the name class.
  predicate IsValidUserName(userName: Option<string>)
  {
    !NullOrBlank(userName) && Utf16Length(userName.value) <= MaxUserNameLength
    && forall k :: 0 <= k < |userName.value| ==> IsNameChar(userName.value[k])
  }

  // In other words: at most 50 characters from the class, at least one of
  // them a syllable, a letter or a digit.
  lemma UserNameSpec(s: string)
    ensures IsValidUserName(Some(s)) <==>
      |s| <= MaxUserNameLength && (forall k :: 0 <= k < |s| ==> IsNameChar(s[k]))
      && exists k :: 0 <= k < |s| && (IsHangulSyllable(s[k]) || IsAsciiAlnum(s[k]))
  {
    if forall k :: 0 <= k < |s| ==> IsNameChar(s[k]) {
      assert Utf16Length(s) == |s|;
      if !IsBlank(s) {
        var k :| 0 <= k < |s| && !IsTrimmed(s[k]);
        assert IsHangulSyllable(s[k]) || IsAsciiAlnum(s[k]);
      }
      if exists k :: 0 <= k < |s| && (IsHangulSyllable(s[k]) || IsAsciiAlnum(s[k])) {
        var k :| 0 <= k < |s| && (IsHangulSyllable(s[k]) || IsAsciiAlnum(s[k]));
        assert !IsTrimmed(s[k]);
      }
    }
  }

  // isValidToken: not null, not blank, exactly 16 UTF-16 units, all ASCII
  // letters and digits.
  predicate IsValidToken(token: Option<string>)
  {
    !NullOrBlank(token) && Utf16Length(token.value) == TokenLength
    && token.value != [] && forall k :: 0 <= k < |token.value| ==> IsAsciiAlnum(token.value[k])
  }

  // In other words: sixteen ASCII letters and digits.
  lemma TokenSpec(s: string)
    ensures IsValidToken(Some(s)) <==> |s| == TokenLength && forall k :: 0 <= k < |s| ==> IsAsciiAlnum(s[k])
  {
    if |s| == TokenLength && forall k :: 0 <= k < |s| ==> IsAsciiAlnum(s[k]) {
      assert Utf16Length(s) == |s|;
      assert !IsTrimmed(s[0]);
    }
    if IsValidToken(Some(s)) {
      assert Utf16Length(s) == |s|;
    }
  }

  // isValidDescription: null is allowed, otherwise at most 500 UTF-16 units.
  predicate IsValidDescription(description: Option<string>)
  {
    description.None? || Utf16Length(description.value) <= MaxDescriptionLength
  }

  // Without characters beyond U+FFFF the limit is 500 characters; 250 of any
  // kind always pass and more than 500 never do.
  lemma DescriptionSpec(s: string)
    ensures (forall k :: 0 <= k < |s| ==> s[k] as int <= 0xFFFF) ==> (IsValidDescription(Some(s)) <==> |s| <= MaxDescriptionLength)
    ensures |s| <= MaxDescriptionLength / 2 ==> IsValidDescription(Some(s))
    ensures |s| > MaxDescriptionLength ==> !IsValidDescription(Some(s))
  {
  }

  // ---- containsSQLInjection ------------------------------------------------

  const SqlKeywords: seq<string> := [
    "drop", "delete", "insert", "update", "create", "alter", "truncate",
    "union", "select", "from", "where", "having", "group by", "order by",
    "exec", "execute", "sp_", "xp_", "/*", "*/", "--", ";",
    "char(", "ascii(", "substring(", "len(", "@@", "waitfor"]

  // The keyword loop with its early return.
  function AnyContained(s: string, keys: seq<string>): (r: bool)
  {
    if keys == [] then false
    else if Contains(s, keys[0]) then true
    else AnyContained(s, keys[1..])
  }

  lemma {:induction false} AnyContainedSpec(s: string, keys: seq<string>)
    ensures AnyContained(s, keys) <==> exists j :: 0 <= j < |keys| && Contains(s, keys[j])
  {
    if keys != [] {
      AnyContainedSpec(s, keys[1..]);
      assert forall j :: 1 <= j < |keys| ==> keys[j] == keys[1..][j - 1];
      if exists j :: 0 <= j < |keys| && Contains(s, keys[j]) {
        var j :| 0 <= j < |keys| && Contains(s, keys[j]);
        if j > 0 {
          assert Contains(s, keys[1..][j - 1]);
        }
      }
    }
  }

  // containsSQLInjection: null is never flagged; otherwise the lower-cased
  // input is searched for each keyword in turn.
  predicate ContainsSqlInjection(input: Option<string>)
  {
    input.Some? && AnyContained(ToLower(input.value), SqlKeywords)
  }

  // Flagged exactly when some keyword occurs in the lower-cased input.
  lemma SqlInjectionSpec(s: string)
    ensures ContainsSqlInjection(Some(s)) <==>
      exists j, k :: 0 <= j < |SqlKeywords| && OccursAt(ToLower(s), SqlKeywords[j], k)
  {
    AnyContainedSpec(ToLower(s), SqlKeywords);
  }

  // The check ignores case: lower-casing first changes nothing.
  lemma SqlInjectionIgnoresCase(s: string)
    ensures ContainsSqlInjection(Some(ToLower(s))) == ContainsSqlInjection(Some(s))
  {
    assert ToLower(ToLower(s)) == ToLower(s);
  }

  // Every keyword starts with a character no Hangul-and-space name has.
  lemma KeywordHeads()
    ensures forall j :: 0 <= j < |SqlKeywords| ==>
      SqlKeywords[j] != [] && !IsHangulSyllable(SqlKeywords[j][0]) && !IsRegexSpace(SqlKeywords[j][0])
  {
  }

  // A name made of Hangul syllables and spaces is never flagged.
  lemma HangulNamePasses(s: string)
    requires forall k :: 0 <= k < |s| ==> IsHangulSyllable(s[k]) || IsRegexSpace(s[k])
    ensures !ContainsSqlInjection(Some(s))
  {
    var lower := ToLower(s);
    assert forall k :: 0 <= k < |s| ==> lower[k] == s[k];
    KeywordHeads();
    forall j, k | 0 <= j < |SqlKeywords| && 0 <= k
      ensures !OccursAt(lower, SqlKeywords[j], k)
    {
    }
    SqlInjectionSpec(s);
  }

  // A valid user name can still be flagged: "Fromm" holds "from".
  lemma ValidNameFlagged()
    ensures IsValidUserName(Some("Fromm")) && ContainsSqlInjection(Some("Fromm"))
  {
    var name := "Fromm";
    UserNameSpec(name);
    assert IsAsciiAlnum(name[0]);
    var lower := ToLower(name);
    assert lower[..4] == "from";
    assert OccursAt(lower, SqlKeywords[9], 0);
    SqlInjectionSpec(name);
  }

  // ---- sanitizeInput --------------------------------------------------------

  // sanitizeInput: null stays null; otherwise cleanXSS of the trimmed input.
  // cleanXSS (HTML escaping, then pattern removal) is the parameter clean.
  function SanitizeInput(clean: string -> string, input: Option<string>): (r: Option<string>)
    ensures r.None? <==> input.None?
  {
    if input.None? then None else Some(clean(Trim(input.value)))
  }

  // Surrounding blanks make no difference: trimming first changes nothing.
  lemma SanitizeIgnoresPadding(clean: string -> string, s: string)
    ensures SanitizeInput(clean, Some(Trim(s))) == SanitizeInput(clean, Some(s))
  {
    TrimIdempotent(s);
  }

  // ---- safeParseInt / safeParseLong ----------------------------------------

  // Null, blank or unparseable input gives the default; otherwise the
  // trimmed string is parsed.
  function SafeParse(value: Option<string>, defaultValue: int, lo: int, hi: int): (r: int)
    ensures NullOrBlank(value) ==> r == defaultValue
    ensures r == defaultValue || lo <= r <= hi
  {
    if NullOrBlank(value) then defaultValue
    else
      match ParseRange(Trim(value.value), lo, hi)
      case Some(n) => n
      case None => defaultValue
  }

  // safeParseInt over the int range.
  function SafeParseInt(value: Option<string>, defaultValue: int): (r: int)
    ensures NullOrBlank(value) ==> r == defaultValue
    ensures r == defaultValue || IntMin <= r <= IntMax
  {
    SafeParse(value, defaultValue, IntMin, IntMax)
  }

  // safeParseLong over the long range.
  function SafeParseLong(value: Option<string>, defaultValue: int): (r: int)
    ensures NullOrBlank(value) ==> r == defaultValue
    ensures r == defaultValue || LongMin <= r <= LongMax
  {
    SafeParse(value, defaultValue, LongMin, LongMax)
  }

  // The padding trim() removes does not matter.
  lemma SafeParseTrims(s: string, defaultValue: int, lo: int, hi: int)
    ensures SafeParse(Some(s), defaultValue, lo, hi) == SafeParse(Some(Trim(s)), defaultValue, lo, hi)
  {
    BlankIffTrimEmpty(s);
    BlankIffTrimEmpty(Trim(s));
    TrimIdempotent(s);
  }

  // Every number in range is read back from its decimal form.
  lemma SafeParseShow(n: int, defaultValue: int, lo: int, hi: int)
    requires lo <= n <= hi
    ensures SafeParse(Some(Show(n)), defaultValue, lo, hi) == n
  {
    var s := Show(n);
    var digits := if n < 0 then ShowNat(-n) else ShowNat(n);
    assert s[|s| - 1] == digits[|digits| - 1];
    assert !IsTrimmed(s[0]) && !IsTrimmed(s[|s| - 1]);
    TrimUnpadded(s);
    assert !IsBlank(s);
    ParseShowRoundTrip(n, lo, hi);
  }
}
