/**
 The pure cores of the prompt helpers: splitting a reply into tokens, reading
 order numbers from them, and reading a yes/no field of the catalogue.
 */
module InputHelpers {
  import opened Model
  import opened Text

  /** The pure core of `ask_tokens`: the stripped, non-blank pieces of a reply
      between commas, in order. */
  function AskTokens(reply: string): (r: seq<string>)
    ensures forall k :: 0 <= k < |r| ==> IsToken(r[k])
  {
    StrippedPiecesKeepOut(Split(reply, ','), ',');
    StrippedPieces(Split(reply, ','))
  }

  /** What `ask_tokens` yields: non-empty, no surrounding whitespace, no comma. */
  predicate IsToken(t: string) {
    IsStripped(t) && ',' !in t
  }

  /** Strips every piece and drops those that come out empty. */
  function StrippedPieces(ps: seq<string>): (r: seq<string>)
    ensures forall k :: 0 <= k < |r| ==> IsStripped(r[k])
  {
    if ps == [] then
      []
    else
      var p := Strip(ps[0]);
      (if p != [] then [p] else []) + StrippedPieces(ps[1..])
  }

  /** An ASCII decimal digit; Python's `int()` also accepts other Unicode
      digits, which this model does not. */
  predicate IsDigit(c: char) {
    '0' <= c <= '9'
  }

  /** A run of digits in which single underscores may stand between two
      digits: it starts and ends with a digit, holds only digits and
      underscores, and no two underscores are neighbours. */
  predicate IsDigitRun(s: string) {
    && |s| > 0 && IsDigit(s[0]) && IsDigit(s[|s| - 1])
    && (forall k :: 0 <= k < |s| ==> IsDigit(s[k]) || s[k] == '_')
    && (forall i, j :: 0 <= i < |s| && 0 <= j < |s| && j == i + 1 ==> IsDigit(s[i]) || IsDigit(s[j]))
  }

  function DigitValue(c: char): nat {
    if IsDigit(c) then c as int - '0' as int else 0
  }

  /** The value of a digit run read in base 10, skipping its underscores. */
  function DigitsValue(s: string): nat {
    if s == [] then 0
    else if s[|s| - 1] == '_' then DigitsValue(s[..|s| - 1])
    else DigitsValue(s[..|s| - 1]) * 10 + DigitValue(s[|s| - 1])
  }

  /** The longest run of digits `int()` converts, CPython's default
      `sys.get_int_max_str_digits()`; a longer one raises `ValueError`. */
  const MaxStrDigits := 4300

  /** The number of digits in a string, underscores and signs not counted. */
  function DigitCount(s: string): nat {
    if s == [] then 0 else DigitCount(s[..|s| - 1]) + (if IsDigit(s[|s| - 1]) then 1 else 0)
  }

  /** `int(token)` in base 10: surrounding whitespace, an optional sign and a
      digit run of at most `MaxStrDigits` digits; `None` where Python raises
      `ValueError`. The whitespace stripped is that of `str.strip()`, which
      also takes U+001C to U+001F, where `int()` does not; the two agree on
      the tokens `ask_tokens` gives, which are stripped already. */
  function ParseInt(token: string): (r: Option<int>)
  {
    var t := Strip(token);
    if |t| > 0 && (t[0] == '+' || t[0] == '-') then
      if IsDigitRun(t[1..]) && DigitCount(t[1..]) <= MaxStrDigits then
        Some(if t[0] == '-' then 0 - DigitsValue(t[1..]) else DigitsValue(t[1..]))
      else
        None
    else if IsDigitRun(t) && DigitCount(t) <= MaxStrDigits then
      Some(DigitsValue(t))
    else
      None
  }

  function DigitChar(d: nat): char
    requires d < 10
  {
    ('0' as int + d) as char
  }

  /** `str(n)` for a natural number. */
  function Decimal(n: nat): string {
    if n < 10 then [DigitChar(n)] else Decimal(n / 10) + [DigitChar(n % 10)]
  }

  /** `str(n)`: a minus sign for negative numbers, then the decimal digits. */
  function IntToString(n: int): string {
    if n < 0 then "-" + Decimal(-n) else Decimal(n)
  }

  /** The numbers `int()` reads from the tokens. */
  function Parsed(ts: seq<string>): set<int> {
    if ts == [] then
      {}
    else
      var n := |ts| - 1;
      Parsed(ts[..n]) + (match ParseInt(ts[n]) case Some(v) => {v} case None => {})
  }

  /** The tokens `int()` refuses, in order. */
  function Unparsed(ts: seq<string>): seq<string> {
    if ts == [] then
      []
    else
      var n := |ts| - 1;
      Unparsed(ts[..n]) + (if ParseInt(ts[n]) == None then [ts[n]] else [])
  }

  /** The pure core of `ask_numbers`: the tokens of the reply that `int()`
      accepts give the set of numbers, and the others are the tokens for which
      a warning is printed, in token order, and which are otherwise ignored. */
  method AskNumbers(reply: string) returns (numbers: set<int>, ignored: seq<string>)
    ensures forall n :: n in numbers <==> exists t :: t in AskTokens(reply) && ParseInt(t) == Some(n)
    ensures ignored == Unparsed(AskTokens(reply))
    ensures forall t :: t in ignored <==> t in AskTokens(reply) && ParseInt(t) == None
  {
    var tokens := AskTokens(reply);
    numbers, ignored := CollectNumbers(tokens);
    ParsedMembers(tokens);
    UnparsedMembers(tokens);
  }

  /** The loop of `ask_numbers`: each token either adds its number to the set
      or is set aside, in token order. */
  method CollectNumbers(tokens: seq<string>) returns (numbers: set<int>, ignored: seq<string>)
    ensures numbers == Parsed(tokens)
    ensures ignored == Unparsed(tokens)
  {
    numbers, ignored := {}, [];
    for i := 0 to |tokens|
      invariant numbers == Parsed(tokens[..i])
      invariant ignored == Unparsed(tokens[..i])
    {
      NextToken(tokens, i);
      match ParseInt(tokens[i]) {
        case Some(n) =>
          numbers := numbers + {n};
        case None =>
          ignored := ignored + [tokens[i]];
      }
    }
    assert tokens[..|tokens|] == tokens;
  }

  /** The values `parse_bool` reads as true. */
  const Truthy: set<string> := {"1", "true", "yes", "y", "ja", "j"}

  /** `parse_bool`: a missing field gives the default; a present one is true
      exactly when, stripped and lowered, it is one of the truthy tokens. */
  function ParseBool(value: Option<string>, default: bool): (b: bool)
    ensures value.None? ==> b == default
    ensures value.Some? ==> (b <==> exists t :: t in Truthy && CaseVariant(Strip(value.value), t))
  {
    match value
    case None => default
    case Some(v) =>
      TruthyVariants(Strip(v));
      Lower(Strip(v)) in Truthy
  }

  /** `x` spells `t` with any of its ASCII letters in either case. */
  predicate CaseVariant(x: string, t: string) {
    && |x| == |t|
    && forall k :: 0 <= k < |x| ==> x[k] == t[k] || ('a' <= t[k] <= 'z' && x[k] == (t[k] as int - 32) as char)
  }

  /** Only ASCII lower-case letters and digits. */
  predicate IsLowerAscii(t: string) {
    forall k :: 0 <= k < |t| ==> 'a' <= t[k] <= 'z' || IsDigit(t[k])
  }

  // ---------------------------------------------------------------------
  // Lemmas

  lemma {:induction false} StrippedPiecesKeepOut(ps: seq<string>, c: char)
    requires forall k :: 0 <= k < |ps| ==> c !in ps[k]
    ensures forall k :: 0 <= k < |StrippedPieces(ps)| ==> c !in StrippedPieces(ps)[k]
  {
    if ps != [] {
      StripKeepsOut(ps[0], c);
      StrippedPiecesKeepOut(ps[1..], c);
    }
  }

  lemma {:induction false} StrippedPiecesOfTokens(ts: seq<string>)
    requires forall k :: 0 <= k < |ts| ==> IsStripped(ts[k])
    ensures StrippedPieces(ts) == ts
  {
    if ts != [] {
      StripUnpadded(ts[0]);
      StrippedPiecesOfTokens(ts[1..]);
    }
  }

  lemma {:induction false} StrippedPiecesConcat(ps: seq<string>, qs: seq<string>)
    ensures StrippedPieces(ps + qs) == StrippedPieces(ps) + StrippedPieces(qs)
  {
    if ps == [] {
      assert ps + qs == qs;
    } else {
      assert (ps + qs)[1..] == ps[1..] + qs;
      StrippedPiecesConcat(ps[1..], qs);
    }
  }

  /** A reply without commas is one token, its strip, unless it is blank. */
  lemma AskTokensPiece(s: string)
    requires ',' !in s
    ensures AskTokens(s) == if Strip(s) == [] then [] else [Strip(s)]
  {
    SplitNoSeparator(s, ',');
    var ps := Split(s, ',');
    assert ps[1..] == [];
    assert StrippedPieces(ps) == (if Strip(s) != [] then [Strip(s)] else []) + StrippedPieces([]);
  }

  /** One more token adds its number or joins the refused ones. */
  lemma NextToken(ts: seq<string>, i: nat)
    requires i < |ts|
    ensures Parsed(ts[..i + 1]) == Parsed(ts[..i]) + (match ParseInt(ts[i]) case Some(v) => {v} case None => {})
    ensures Unparsed(ts[..i + 1]) == Unparsed(ts[..i]) + (if ParseInt(ts[i]) == None then [ts[i]] else [])
  {
    assert ts[..i + 1][..i] == ts[..i];
  }

  /** A number is read exactly when some token parses to it. */
  lemma {:induction false} ParsedMembers(ts: seq<string>)
    ensures forall n :: n in Parsed(ts) <==> exists t :: t in ts && ParseInt(t) == Some(n)
  {
    if ts != [] {
      var k := |ts| - 1;
      ParsedMembers(ts[..k]);
      assert ts == ts[..k] + [ts[k]];
      forall n ensures n in Parsed(ts) <==> exists t :: t in ts && ParseInt(t) == Some(n) {
        if n in Parsed(ts) {
          if n in Parsed(ts[..k]) {
            var t :| t in ts[..k] && ParseInt(t) == Some(n);
            assert t in ts;
          } else {
            assert ParseInt(ts[k]) == Some(n);
          }
        }
        if exists t :: t in ts && ParseInt(t) == Some(n) {
          var t :| t in ts && ParseInt(t) == Some(n);
          if t != ts[k] {
            assert t in ts[..k];
          }
        }
      }
    }
  }

  /** A token is ignored exactly when it is a token `int()` refuses. */
  lemma {:induction false} UnparsedMembers(ts: seq<string>)
    ensures forall t :: t in Unparsed(ts) <==> t in ts && ParseInt(t) == None
  {
    if ts != [] {
      var n := |ts| - 1;
      UnparsedMembers(ts[..n]);
      assert ts == ts[..n] + [ts[n]];
    }
  }

  lemma {:induction false} DigitCountFront(s: string)
    requires s != []
    ensures DigitCount(s) == (if IsDigit(s[0]) then 1 else 0) + DigitCount(s[1..])
  {
    var n := |s| - 1;
    if n > 0 {
      DigitCountFront(s[..n]);
      assert s[..n][1..] == s[1..][..n - 1];
    } else {
      assert s[..n] == [] && s[1..] == [];
    }
  }

  lemma {:induction false} DigitCountAll(s: string)
    requires forall k :: 0 <= k < |s| ==> IsDigit(s[k])
    ensures DigitCount(s) == |s|
  {
    if s != [] {
      DigitCountAll(s[..|s| - 1]);
    }
  }

  /** What `int()` accepts: a token that ends in a digit once stripped, that
      reads as a negative number only behind a minus sign, and that has at
      most `MaxStrDigits` digits. */
  lemma ParseIntShape(token: string)
    ensures ParseInt(token).Some? ==> var t := Strip(token); t != [] && IsDigit(t[|t| - 1])
    ensures ParseInt(token).Some? && ParseInt(token).value < 0 ==> Strip(token)[0] == '-'
    ensures DigitCount(Strip(token)) > MaxStrDigits ==> ParseInt(token) == None
  {
    var t := Strip(token);
    if t != [] {
      DigitCountFront(t);
    }
  }

  /** Tokenising a comma-joined list of tokens gives the list back. */
  lemma AskTokensJoin(ts: seq<string>)
    requires forall k :: 0 <= k < |ts| ==> IsToken(ts[k])
    ensures AskTokens(Join(",", ts)) == ts
  {
    if ts != [] {
      SplitJoin(ts, ',');
      StrippedPiecesOfTokens(ts);
    }
  }

  /** A comma in the reply separates the tokens of each side of it. */
  lemma AskTokensConcat(a: string, b: string)
    ensures AskTokens(a + "," + b) == AskTokens(a) + AskTokens(b)
  {
    SplitConcat(a, ',', b);
    StrippedPiecesConcat(Split(a, ','), Split(b, ','));
  }

  lemma {:induction false} DecimalDigits(n: nat)
    ensures var s := Decimal(n);
      |s| > 0 && (forall k :: 0 <= k < |s| ==> IsDigit(s[k])) && DigitsValue(s) == n
  {
    if n >= 10 {
      DecimalDigits(n / 10);
      var s := Decimal(n);
      assert s[..|s| - 1] == Decimal(n / 10);
    }
  }

  /** `int()` reads back what `str()` writes, for every number `str()` can
      write, that is, one of at most `MaxStrDigits` digits. */
  lemma ParseIntShow(n: int)
    requires |Decimal(if n < 0 then -n else n)| <= MaxStrDigits
    ensures ParseInt(IntToString(n)) == Some(n)
  {
    var m := if n < 0 then -n else n;
    var d := Decimal(m);
    DecimalDigits(m);
    if n < 0 {
      var s := IntToString(n);
      assert s[1..] == d;
      forall k | 1 <= k < |s|
        ensures IsDigit(s[k])
      {
        assert s[k] == d[k - 1];
      }
      ParseNegative(s);
    } else {
      ParseUnsigned(d);
    }
  }

  /** A run of digits within the limit reads as its value. */
  lemma ParseUnsigned(d: string)
    requires |d| > 0 && forall k :: 0 <= k < |d| ==> IsDigit(d[k])
    requires |d| <= MaxStrDigits
    ensures ParseInt(d) == Some(DigitsValue(d))
  {
    AllDigits(d);
    StripUnpadded(d);
  }

  /** A minus sign before a run of digits within the limit negates its value. */
  lemma ParseNegative(s: string)
    requires |s| > 1 && s[0] == '-' && forall k :: 1 <= k < |s| ==> IsDigit(s[k])
    requires |s| - 1 <= MaxStrDigits
    ensures ParseInt(s) == Some(0 - DigitsValue(s[1..]))
  {
    var d := s[1..];
    assert forall k :: 0 <= k < |d| ==> IsDigit(d[k]);
    AllDigits(d);
    assert IsStripped(s) by {
      assert IsDigit(s[|s| - 1]);
    }
    ParseMinus(s);
  }

  lemma ParseMinus(s: string)
    requires IsStripped(s) && s[0] == '-'
    requires IsDigitRun(s[1..]) && DigitCount(s[1..]) <= MaxStrDigits
    ensures ParseInt(s) == Some(0 - DigitsValue(s[1..]))
  {
    StripUnpadded(s);
  }

  lemma AllDigits(d: string)
    requires |d| > 0 && forall k :: 0 <= k < |d| ==> IsDigit(d[k])
    ensures IsDigitRun(d) && IsStripped(d) && DigitCount(d) == |d|
  {
    DigitCountAll(d);
  }

  /** Single underscores between digits are skipped; doubled ones are refused. */
  lemma ParseIntUnderscores()
    ensures ParseInt("1_000") == Some(1000)
    ensures ParseInt("1__0") == None
  {
    SingleUnderscore();
    DoubleUnderscore();
  }

  lemma SingleUnderscore()
    ensures ParseInt("1_000") == Some(1000)
  {
    StripUnpadded("1_000");
    assert "1_000"[..4] == "1_00";
    assert "1_00"[..3] == "1_0";
    assert "1_0"[..2] == "1_";
    assert "1_"[..1] == "1";
    assert "1"[..0] == "";
    assert DigitsValue("1_00") == 100;
    assert DigitCount("1_000") == 4;
    assert IsDigitRun("1_000");
  }

  lemma DoubleUnderscore()
    ensures ParseInt("1__0") == None
  {
    StripUnpadded("1__0");
    assert !IsDigitRun("1__0") by {
      assert "1__0"[1] == '_' && "1__0"[2] == '_';
    }
  }

  /** A sign, leading zeros and surrounding whitespace are accepted; a sign
      without digits is not. */
  lemma ParseIntSigns()
    ensures ParseInt(" -07 ") == Some(-7)
    ensures ParseInt("+3") == Some(3)
    ensures ParseInt("-") == None
  {
    PaddedNegative();
    PlusSign();
    LoneSign();
  }

  lemma PaddedNegative()
    ensures ParseInt(" -07 ") == Some(-7)
  {
    StripPadded(" ", "-07", " ");
    assert " " + "-07" + " " == " -07 ";
    ParseNegative("-07");
    assert "-07"[1..] == "07";
    assert "07"[..1] == "0";
    assert "0"[..0] == "";
  }

  lemma PlusSign()
    ensures ParseInt("+3") == Some(3)
  {
    StripUnpadded("+3");
    assert "+3"[1..] == "3";
    assert "3"[..0] == "";
  }

  lemma LoneSign()
    ensures ParseInt("-") == None
  {
    StripUnpadded("-");
    assert "-"[1..] == "";
  }

  /** Other characters and the empty token are refused. */
  lemma ParseIntRejects()
    ensures ParseInt("3a") == None
    ensures ParseInt("") == None
  {
    StripUnpadded("3a");
    StripEmpty("");
  }

  /** Case does not matter to `parse_bool`. */
  lemma ParseBoolIgnoresCase(v: string, default: bool)
    ensures ParseBool(Some(Lower(v)), default) == ParseBool(Some(v), default)
  {
    StripLower(v);
    LowerIdempotent(Strip(v));
  }

  /** A string lowers to a lower-case ASCII token exactly when it spells
      that token in some mix of cases. */
  lemma LowerCaseVariant(x: string, t: string)
    requires IsLowerAscii(t)
    ensures Lower(x) == t <==> CaseVariant(x, t)
  {
    if Lower(x) == t {
      forall k | 0 <= k < |x|
        ensures x[k] == t[k] || ('a' <= t[k] <= 'z' && x[k] == (t[k] as int - 32) as char)
      {
        assert LowerChar(x[k]) == t[k];
      }
    }
    if CaseVariant(x, t) {
      forall k | 0 <= k < |x|
        ensures Lower(x)[k] == t[k]
      {
        assert LowerChar(x[k]) == t[k];
      }
    }
  }

  /** Lowering gives a truthy token exactly when the value spells one. */
  lemma TruthyVariants(x: string)
    ensures Lower(x) in Truthy <==> exists t :: t in Truthy && CaseVariant(x, t)
  {
    forall t | t in Truthy
      ensures Lower(x) == t <==> CaseVariant(x, t)
    {
      assert IsLowerAscii(t);
      LowerCaseVariant(x, t);
    }
  }

  /** Surrounding whitespace does not matter to `parse_bool`. */
  lemma ParseBoolIgnoresPadding(ws1: string, v: string, ws2: string, default: bool)
    requires AllSpace(ws1) && AllSpace(ws2)
    ensures ParseBool(Some(ws1 + v + ws2), default) == ParseBool(Some(v), default)
  {
    StripPadded(ws1, v, ws2);
  }

  /** The truthy tokens in any case are true; anything else that is present,
      a blank field included, is false whatever the default. */
  lemma ParseBoolExamples()
    ensures ParseBool(Some(" Ja "), false)
    ensures ParseBool(Some("TRUE"), false)
    ensures !ParseBool(Some("nein"), true)
    ensures !ParseBool(Some(""), true)
    ensures ParseBool(None, true)
  {
    PaddedJa();
    UpperTrue();
    Nein();
    Blank();
  }

  lemma PaddedJa()
    ensures ParseBool(Some(" Ja "), false)
  {
    StripPadded(" ", "Ja", " ");
    StripUnpadded("Ja");
    assert " " + "Ja" + " " == " Ja ";
    assert Lower("Ja") == "ja";
  }

  lemma UpperTrue()
    ensures ParseBool(Some("TRUE"), false)
  {
    StripUnpadded("TRUE");
    assert Lower("TRUE") == "true";
  }

  lemma Blank()
    ensures !ParseBool(Some(""), true)
  {
    StripEmpty("");
    assert Lower(Strip("")) == "";
  }

  lemma Nein()
    ensures !ParseBool(Some("nein"), true)
  {
    StripUnpadded("nein");
    assert Lower("nein") == "nein";
  }
}
