/** Small models of the pieces of Go's standard library the image server's
    logic leans on: strings.HasPrefix / HasSuffix / Split, filepath.Ext on a
    '/'-separated path, strconv.Atoi, and the wrap-around of Go's 64-bit int. */
module GoLib {

  datatype Option<+T> = None | Some(value: T)

  /** strings.HasPrefix */
  predicate HasPrefix(s: string, prefix: string) {
    |prefix| <= |s| && s[..|prefix|] == prefix
  }

  /** strings.HasSuffix */
  predicate HasSuffix(s: string, suffix: string) {
    |suffix| <= |s| && s[|s| - |suffix|..] == suffix
  }

  /** Anything put in front of a string keeps every suffix it had. */
  lemma HasSuffixPrepend(x: string, s: string, suffix: string)
    requires HasSuffix(s, suffix)
    ensures HasSuffix(x + s, suffix)
  {
    assert (x + s)[|x + s| - |suffix|..] == s[|s| - |suffix|..];
  }

  // ---------------------------------------------------------------------------
  // strings.Split with a one-character separator, and its inverse strings.Join
  // ---------------------------------------------------------------------------

  /** strings.Join with a one-character separator. */
  function JoinWith(parts: seq<string>, sep: char): string {
    if |parts| == 0 then ""
    else if |parts| == 1 then parts[0]
    else parts[0] + [sep] + JoinWith(parts[1..], sep)
  }

  /** Position of the first occurrence of `c` in `s`. */
  function IndexOf(s: string, c: char): (i: nat)
    requires c in s
    ensures i < |s| && s[i] == c && c !in s[..i]
  {
    if s[0] == c then 0
    else
      var j := IndexOf(s[1..], c);
      assert s[1..][..j] == s[1..j + 1];
      assert s[..j + 1] == [s[0]] + s[1..j + 1];
      1 + j
  }

  /** strings.Split(s, string(sep)): the pieces between separators, in order,
      always at least one (the empty string splits into one empty piece).
      The two properties below determine the result uniquely. */
  function Split(s: string, sep: char): (parts: seq<string>)
    ensures |parts| > 0
    ensures forall k :: 0 <= k < |parts| ==> sep !in parts[k]
    ensures JoinWith(parts, sep) == s
    decreases |s|
  {
    if sep !in s then [s]
    else
      var i := IndexOf(s, sep);
      var rest := Split(s[i + 1..], sep);
      var parts := [s[..i]] + rest;
      assert parts[1..] == rest;
      assert s == s[..i] + [sep] + s[i + 1..];
      parts
  }

  /** If `sep` occurs nowhere in `a`, the first separator of a + [sep] + b is
      the one right after `a`. */
  lemma IndexOfAfterPiece(a: string, sep: char, b: string)
    requires sep !in a
    ensures sep in a + [sep] + b && IndexOf(a + [sep] + b, sep) == |a|
  {
    var s := a + [sep] + b;
    assert s[|a|] == sep;
  }

  /** Splitting undoes joining: pieces free of the separator come back unchanged. */
  lemma {:induction false} SplitJoin(parts: seq<string>, sep: char)
    requires |parts| > 0
    requires forall k :: 0 <= k < |parts| ==> sep !in parts[k]
    ensures Split(JoinWith(parts, sep), sep) == parts
    decreases |parts|
  {
    if |parts| > 1 {
      var rest := parts[1..];
      var s := JoinWith(parts, sep);
      assert s == parts[0] + [sep] + JoinWith(rest, sep);
      IndexOfAfterPiece(parts[0], sep, JoinWith(rest, sep));
      assert s[..|parts[0]|] == parts[0];
      assert s[|parts[0]| + 1..] == JoinWith(rest, sep);
      SplitJoin(rest, sep);
      assert parts == [parts[0]] + rest;
    }
  }

  // ---------------------------------------------------------------------------
  // filepath.Ext
  // ---------------------------------------------------------------------------

  /** The last '/'-separated element of `path` holds no '.'. */
  ghost predicate NoDotInLastElement(path: string) {
    forall k :: 0 <= k < |path| && '/' !in path[k..] ==> path[k] != '.'
  }

  /** filepath.Ext with '/' as the only separator: scanning from the end,
      stop at a '/' (no extension) or at a '.' (the extension starts there). */
  function Ext(path: string): (e: string)
    ensures HasSuffix(path, e)
    ensures e != [] ==> e[0] == '.' && '.' !in e[1..] && '/' !in e
    ensures e == [] <==> NoDotInLastElement(path)
    decreases |path|
  {
    if |path| == 0 then ""
    else
      var c := path[|path| - 1];
      var init := path[..|path| - 1];
      if c == '/' then ""
      else if c == '.' then "."
      else
        var e := Ext(init);
        if e == [] then
          assert forall k :: 0 <= k < |path| && '/' !in path[k..] ==> path[k] != '.' by {
            forall k | 0 <= k < |path| && '/' !in path[k..]
              ensures path[k] != '.'
            {
              if k < |init| {
                assert init[k..] + [c] == path[k..];
                assert '/' !in init[k..];
                assert init[k] == path[k];
              }
            }
          }
          ""
        else
          assert (e + [c])[1..] == e[1..] + [c];
          assert path[|path| - |e| - 1..] == init[|init| - |e|..] + [c];
          e + [c]
  }

  /** Removing the extension and putting it back gives the path again. */
  lemma ExtStripRestores(path: string)
    ensures path[..|path| - |Ext(path)|] + Ext(path) == path
  {
  }

  // ---------------------------------------------------------------------------
  // strconv.Atoi on a 64-bit platform, and its inverse strconv.Itoa
  // ---------------------------------------------------------------------------

  const MinInt64: int := -0x8000_0000_0000_0000
  const MaxInt64: int := 0x7FFF_FFFF_FFFF_FFFF

  predicate IsDigit(c: char) {
    '0' <= c <= '9'
  }

  /** A non-empty run of decimal digits. */
  predicate IsDigits(s: string) {
    |s| > 0 && forall k :: 0 <= k < |s| ==> IsDigit(s[k])
  }

  /** The value of a run of decimal digits (leading zeros allowed). */
  function DigitsValue(s: string): nat
    requires forall k :: 0 <= k < |s| ==> IsDigit(s[k])
  {
    if |s| == 0 then 0
    else
      assert IsDigit(s[|s| - 1]);
      DigitsValue(s[..|s| - 1]) * 10 + (s[|s| - 1] as int - '0' as int)
  }

  /** The text after an optional leading '+' or '-'. */
  function Unsigned(s: string): string {
    if |s| > 0 && (s[0] == '+' || s[0] == '-') then s[1..] else s
  }

  /** strconv.Atoi: an optional '+' or '-' followed by at least one decimal
      digit, no other characters, and a value that fits in an int64. */
  function Atoi(s: string): (r: Option<int>)
    ensures r.Some? <==>
      IsDigits(Unsigned(s)) &&
      (if s[0] == '-' then MinInt64 <= 0 - DigitsValue(Unsigned(s)) as int else DigitsValue(Unsigned(s)) <= MaxInt64)
    ensures r.Some? ==> MinInt64 <= r.value <= MaxInt64
    ensures r.Some? && s[0] == '-' ==> r.value == 0 - DigitsValue(Unsigned(s)) as int
    ensures r.Some? && s[0] != '-' ==> r.value == DigitsValue(Unsigned(s))
  {
    if |s| == 0 then None
    else
      var negative := s[0] == '-';
      var digits := Unsigned(s);
      if !IsDigits(digits) then None
      else
        var v := if negative then 0 - DigitsValue(digits) else DigitsValue(digits);
        if MinInt64 <= v <= MaxInt64 then Some(v) else None
  }

  /** Signs, leading zeros and "-0" are accepted; a lone sign, trailing
      text and values past the int64 range are not. */
  lemma AtoiExamples()
    ensures Atoi("+5") == Some(5) && Atoi("007") == Some(7) && Atoi("-0") == Some(0)
    ensures Atoi("-") == None && Atoi("5a") == None && Atoi("") == None
  {
    assert Unsigned("+5") == "5" && Unsigned("-0") == "0";
    assert "007"[..2] == "00" && "00"[..1] == "0";
    assert !IsDigit('a') && "5a"[1] == 'a';
    assert Unsigned("-") == "";
  }

  /** Decimal digits of a natural number, no leading zeros. */
  function NatDigits(n: nat): (s: string)
    ensures IsDigits(s)
    decreases n
  {
    if n < 10 then [('0' as int + n) as char]
    else NatDigits(n / 10) + [('0' as int + n % 10) as char]
  }

  /** strconv.Itoa */
  function Itoa(n: int): string {
    if n < 0 then "-" + NatDigits(-n) else NatDigits(n)
  }

  lemma {:induction false} NatDigitsValue(n: nat)
    ensures DigitsValue(NatDigits(n)) == n
    decreases n
  {
    if n >= 10 {
      var s := NatDigits(n);
      assert s[..|s| - 1] == NatDigits(n / 10);
      NatDigitsValue(n / 10);
    }
  }

  /** The decimal rendering of a number outside the int64 range is refused. */
  lemma AtoiRejectsOutOfRange(n: int)
    requires n < MinInt64 || n > MaxInt64
    ensures Atoi(Itoa(n)) == None
  {
    if n < 0 {
      NatDigitsValue(-n);
      assert Itoa(n)[1..] == NatDigits(-n);
    } else {
      NatDigitsValue(n);
    }
  }

  /** Parsing the decimal rendering of any int64 gives the number back. */
  lemma AtoiItoa(n: int)
    requires MinInt64 <= n <= MaxInt64
    ensures Atoi(Itoa(n)) == Some(n)
  {
    if n < 0 {
      NatDigitsValue(-n);
      assert Itoa(n)[1..] == NatDigits(-n);
    } else {
      NatDigitsValue(n);
    }
  }

  // ---------------------------------------------------------------------------
  // Go's int on a 64-bit platform
  // ---------------------------------------------------------------------------

  const TwoTo64: int := 0x1_0000_0000_0000_0000

  /** The int64 that an arithmetic result wraps to (two's complement). */
  function Wrap64(x: int): (r: int)
    ensures MinInt64 <= r <= MaxInt64
    ensures (r - x) % TwoTo64 == 0
    ensures MinInt64 <= x <= MaxInt64 ==> r == x
  {
    var m := x % TwoTo64;
    if m <= MaxInt64 then m else m - TwoTo64
  }
}
