/** String vocabulary of the model: Rust's `str::split` on a string
    pattern, `contains`, `trim`, `ends_with`, `u32::from_str`, the decimal
    rendering of an integer and `Path::extension`. Strings are sequences of
    Unicode scalar values, as Rust's `char`s are. */
module Text {
  import opened Wrappers

  type u32 = x: int | 0 <= x < 0x1_0000_0000

  /** `pat` occurs in `s` starting at index `i`. */
  predicate IsAt(s: string, i: int, pat: string) {
    0 <= i && i + |pat| <= |s| && s[i..i + |pat|] == pat
  }

  /** Index of the first occurrence of `pat` in `s` (Rust's `str::find`). */
  function Find(s: string, pat: string): (r: Option<nat>)
    ensures r.Some? ==> IsAt(s, r.value, pat)
    ensures r.Some? ==> forall j :: 0 <= j < r.value ==> !IsAt(s, j, pat)
    ensures r.None? ==> forall j :: 0 <= j <= |s| ==> !IsAt(s, j, pat)
    decreases |s|
  {
    if |s| < |pat| then None
    else if s[..|pat|] == pat then Some(0)
    else
      var rest := Find(s[1..], pat);
      assert forall j :: 1 <= j <= |s| ==> (IsAt(s, j, pat) <==> IsAt(s[1..], j - 1, pat)) by {
        forall j | 1 <= j <= |s| ensures IsAt(s, j, pat) <==> IsAt(s[1..], j - 1, pat) {
          if j + |pat| <= |s| {
            assert s[1..][j - 1..j - 1 + |pat|] == s[j..j + |pat|];
          }
        }
      }
      match rest
      case None => None
      case Some(i) => Some(i + 1)
  }

  /** Rust's `str::contains` with a string pattern. */
  predicate Contains(s: string, pat: string) {
    Find(s, pat).Some?
  }

  /** Rust's `s.split(sep)` collected: the pieces between the successive
      non-overlapping occurrences of `sep`, searched from the left. */
  function Split(s: string, sep: string): (r: seq<string>)
    requires |sep| > 0
    ensures |r| >= 1
    decreases |s|
  {
    match Find(s, sep)
    case None => [s]
    case Some(i) => [s[..i]] + Split(s[i + |sep|..], sep)
  }

  /** A string splits into at least two pieces exactly when it holds the separator. */
  lemma SplitTwoPieces(s: string, sep: string)
    requires |sep| > 0
    ensures Contains(s, sep) <==> |Split(s, sep)| >= 2
  {
  }

  /** Rust's `parts.join(sep)`. */
  function Join(parts: seq<string>, sep: string): string {
    if |parts| == 0 then ""
    else if |parts| == 1 then parts[0]
    else parts[0] + sep + Join(parts[1..], sep)
  }

  /** Splitting and joining with the same separator gives the string back. */
  lemma {:induction false} JoinSplit(s: string, sep: string)
    requires |sep| > 0
    ensures Join(Split(s, sep), sep) == s
    decreases |s|
  {
    match Find(s, sep)
    case None =>
    case Some(i) =>
      var rest := s[i + |sep|..];
      JoinSplit(rest, sep);
      JoinCons(s[..i], Split(rest, sep), sep);
      SliceAround(s, i, sep);
  }

  /** A string is what precedes an occurrence of `pat`, `pat`, and what follows. */
  lemma SliceAround(s: string, i: nat, pat: string)
    requires IsAt(s, i, pat)
    ensures s == s[..i] + pat + s[i + |pat|..]
  {
    assert s[i..i + |pat|] == pat;
  }

  /** Joining a head and a non-empty tail puts the separator between them. */
  lemma JoinCons(head: string, tail: seq<string>, sep: string)
    requires |tail| >= 1
    ensures Join([head] + tail, sep) == head + sep + Join(tail, sep)
  {
    assert ([head] + tail)[1..] == tail;
  }

  /** No piece of a split holds the separator. */
  lemma {:induction false} SplitPiecesFree(s: string, sep: string)
    requires |sep| > 0
    ensures forall k :: 0 <= k < |Split(s, sep)| ==> !Contains(Split(s, sep)[k], sep)
    decreases |s|
  {
    match Find(s, sep)
    case None =>
    case Some(i) =>
      var rest := s[i + |sep|..];
      SplitPiecesFree(rest, sep);
      var head := s[..i];
      forall j | 0 <= j <= |head| ensures !IsAt(head, j, sep) {
        if IsAt(head, j, sep) {
          assert s[j..j + |sep|] == head[j..j + |sep|];
          assert IsAt(s, j, sep);
        }
      }
  }

  /** The first piece of a split is a prefix of the string, followed by
      the separator unless it is the whole string. */
  lemma SplitHead(s: string, sep: string)
    requires |sep| > 0
    ensures var h := Split(s, sep)[0];
      |h| <= |s| && h == s[..|h|] && (h == s || IsAt(s, |h|, sep))
  {
  }

  /** A string without the character `c` holds no occurrence of `[c]`. */
  lemma FindAbsent(s: string, c: char)
    requires c !in s
    ensures Find(s, [c]).None?
  {
    forall j | 0 <= j <= |s| ensures !IsAt(s, j, [c]) {
      if j + 1 <= |s| {
        assert s[j..j + 1] == [s[j]];
      }
    }
  }

  /** The first `c` in `a + [c] + b`, when `a` has none, is right after `a`. */
  lemma FindCharAt(a: string, c: char, b: string)
    requires c !in a
    ensures Find(a + [c] + b, [c]) == Some(|a|)
  {
    var s := a + [c] + b;
    assert s[|a|..|a| + 1] == [c];
    assert IsAt(s, |a|, [c]);
    forall j | 0 <= j < |a| ensures !IsAt(s, j, [c]) {
      assert s[j..j + 1] == [a[j]];
    }
    var i := Find(s, [c]).value;
    assert i <= |a|;
  }

  /** Joining pieces free of `c` with `c` and splitting on `c` gives the
      pieces back. */
  lemma {:induction false} SplitJoinChar(parts: seq<string>, c: char)
    requires |parts| >= 1
    requires forall k :: 0 <= k < |parts| ==> c !in parts[k]
    ensures Split(Join(parts, [c]), [c]) == parts
    decreases |parts|
  {
    if |parts| == 1 {
      FindAbsent(parts[0], c);
    } else {
      var rest := Join(parts[1..], [c]);
      var s := parts[0] + [c] + rest;
      assert Join(parts, [c]) == s;
      FindCharAt(parts[0], c, rest);
      assert s[|parts[0]| + 1..] == rest;
      assert s[..|parts[0]|] == parts[0];
      SplitJoinChar(parts[1..], c);
      assert parts == [parts[0]] + parts[1..];
    }
  }

  /** The piece after the first occurrence of `sep`, up to the next one
      (Rust's `s.split(sep).collect::<Vec<_>>()[1]`). */
  function SecondPiece(s: string, sep: string): (r: string)
    requires |sep| > 0 && Contains(s, sep)
    ensures !Contains(r, sep)
  {
    SplitPiecesFree(s, sep);
    Split(s, sep)[1]
  }

  /** The last `/`-separated segment of a path
      (Rust's `path.split('/').last().unwrap()`). */
  function Basename(path: string): (r: string)
    ensures '/' !in r
  {
    SplitPiecesFree(path, "/");
    var parts := Split(path, "/");
    AbsentChar(parts[|parts| - 1], '/');
    parts[|parts| - 1]
  }

  /** A string that does not contain the one-character pattern `[c]` has no `c`. */
  lemma AbsentChar(s: string, c: char)
    requires !Contains(s, [c])
    ensures c !in s
  {
    forall j | 0 <= j < |s| ensures s[j] != c {
      assert !IsAt(s, j, [c]);
      assert s[j..j + 1] == [s[j]];
    }
  }

  /** The text after the first occurrence of `pat`. */
  function AfterFirst(s: string, pat: string): (r: string)
    requires Contains(s, pat)
    ensures EndsWith(s, pat + r)
    ensures |pat| > 0 ==> Split(s, pat)[1..] == Split(r, pat)
  {
    var i := Find(s, pat).value;
    assert s[|s| - |pat + s[i + |pat|..]|..] == s[i..i + |pat|] + s[i + |pat|..];
    s[i + |pat|..]
  }

  /** The longest prefix of `s` whose characters all satisfy `p`
      (Rust's `s.chars().take_while(p).collect::<String>()`). */
  function TakeWhile(s: string, p: char -> bool): (r: string)
    ensures |r| <= |s| && r == s[..|r|]
    ensures forall i :: 0 <= i < |r| ==> p(r[i])
    ensures |r| == |s| || !p(s[|r|])
  {
    if s != [] && p(s[0]) then [s[0]] + TakeWhile(s[1..], p) else []
  }

  /** Rust's `str::ends_with`. */
  predicate EndsWith(s: string, suffix: string) {
    |suffix| <= |s| && s[|s| - |suffix|..] == suffix
  }

  predicate IsDigit(c: char) {
    '0' <= c <= '9'
  }

  predicate AllDigits(s: string) {
    forall i :: 0 <= i < |s| ==> IsDigit(s[i])
  }

  /** The value of a string of decimal digits, most significant first. */
  function DigitsValue(s: string): nat
    requires AllDigits(s)
  {
    if s == [] then 0
    else DigitsValue(s[..|s| - 1]) * 10 + (s[|s| - 1] as int - '0' as int)
  }

  lemma DigitsValueSnoc(s: string, c: char)
    requires AllDigits(s) && IsDigit(c)
    ensures AllDigits(s + [c])
    ensures DigitsValue(s + [c]) == DigitsValue(s) * 10 + (c as int - '0' as int)
  {
    assert (s + [c])[..|s|] == s;
  }

  /** The digits `u32::from_str` reads: one leading `+` is skipped. */
  function UnsignedDigits(s: string): string {
    if |s| > 0 && s[0] == '+' then s[1..] else s
  }

  /** Rust's `s.parse::<u32>().ok()`: an optional `+`, then at least one
      ASCII digit, and a value that fits in 32 bits. */
  function ParseU32(s: string): (r: Option<u32>)
    ensures r.Some? ==> s != [] && AllDigits(UnsignedDigits(s))
  {
    var digits := UnsignedDigits(s);
    if digits != [] && AllDigits(digits) && DigitsValue(digits) < 0x1_0000_0000
    then Some(DigitsValue(digits))
    else None
  }

  /** The decimal rendering of `n` (Rust's `n.to_string()`). */
  function NatToString(n: nat): (r: string)
    ensures |r| > 0 && AllDigits(r) && DigitsValue(r) == n
  {
    if n < 10 then ['0' + n as char]
    else
      var r := NatToString(n / 10) + ['0' + (n % 10) as char];
      assert r[..|r| - 1] == NatToString(n / 10);
      r
  }

  /** `u32::to_string` and `str::parse::<u32>` are inverse. */
  lemma ParseNatToString(n: u32)
    ensures ParseU32(NatToString(n)) == Some(n)
  {
    assert NatToString(n)[0] != '+';
  }

  /** Rust's `char::is_whitespace`: the Unicode White_Space property. */
  predicate IsWhiteSpace(c: char) {
    ('\t' <= c <= '\r') || c == ' ' || c == '\U{85}' || c == '\U{A0}' || c == '\U{1680}'
    || ('\U{2000}' <= c <= '\U{200A}') || c == '\U{2028}' || c == '\U{2029}'
    || c == '\U{202F}' || c == '\U{205F}' || c == '\U{3000}'
  }

  /** Rust's `str::trim_start`. */
  function TrimStart(s: string): (r: string)
    ensures |r| <= |s| && r == s[|s| - |r|..]
    ensures forall i :: 0 <= i < |s| - |r| ==> IsWhiteSpace(s[i])
    ensures r == [] || !IsWhiteSpace(r[0])
  {
    if s != [] && IsWhiteSpace(s[0]) then TrimStart(s[1..]) else s
  }

  /** Rust's `str::trim_end`. */
  function TrimEnd(s: string): (r: string)
    ensures |r| <= |s| && r == s[..|r|]
    ensures forall i :: |r| <= i < |s| ==> IsWhiteSpace(s[i])
    ensures r == [] || !IsWhiteSpace(r[|r| - 1])
  {
    if s != [] && IsWhiteSpace(s[|s| - 1]) then TrimEnd(s[..|s| - 1]) else s
  }

  /** Rust's `str::trim`: white space removed from both ends. */
  function Trim(s: string): (r: string)
    ensures r == [] || (!IsWhiteSpace(r[0]) && !IsWhiteSpace(r[|r| - 1]))
    ensures forall c :: c in r ==> c in s
  {
    var t := TrimStart(s);
    assert forall c :: c in t ==> c in s;
    TrimEnd(t)
  }

  /** Index of the last occurrence of `c` in `s`. */
  function LastIndexOf(s: string, c: char): (r: Option<nat>)
    ensures r.Some? ==> r.value < |s| && s[r.value] == c && c !in s[r.value + 1..]
    ensures r.None? ==> c !in s
  {
    if s == [] then None
    else if s[|s| - 1] == c then Some(|s| - 1)
    else LastIndexOf(s[..|s| - 1], c)
  }

  /** Rust's `Path::extension` of a file name: the text after the last dot,
      unless there is no dot, the only dot starts the name, or the name
      is `..`. */
  function Extension(name: string): (r: Option<string>)
    ensures r.Some? ==> '.' !in r.value && EndsWith(name, "." + r.value)
    ensures r.Some? ==> |r.value| + 1 < |name|
  {
    if name == ".." then None
    else match LastIndexOf(name, '.')
      case None => None
      case Some(i) =>
        if i == 0 then None
        else
          assert name[|name| - |name[i + 1..]| - 1..] == "." + name[i + 1..];
          Some(name[i + 1..])
  }
}
