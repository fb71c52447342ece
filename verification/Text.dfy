/** Searches and trimming of Go's strings package. */
module Text {
  /** strings.Index for one character: the first position, or -1. */
  function IndexOf(s: string, c: char): (i: int)
    ensures -1 <= i < |s|
    ensures i == -1 <==> c !in s
    ensures i >= 0 ==> s[i] == c && c !in s[..i]
  {
    if s == "" then -1
    else if s[0] == c then 0
    else
      var i := IndexOf(s[1..], c);
      if i == -1 then -1
      else
        assert s[..i + 1] == [s[0]] + s[1..][..i];
        i + 1
  }

  /** strings.LastIndex for one character: the last position, or -1. */
  function LastIndexOf(s: string, c: char): (i: int)
    ensures -1 <= i < |s|
    ensures i == -1 <==> c !in s
    ensures i >= 0 ==> s[i] == c && c !in s[i + 1..]
  {
    if s == "" then -1
    else if s[|s| - 1] == c then |s| - 1
    else
      var front := s[..|s| - 1];
      var i := LastIndexOf(front, c);
      assert s == front + [s[|s| - 1]];
      if i == -1 then -1
      else
        assert s[i + 1..] == front[i + 1..] + [s[|s| - 1]];
        i
  }

  lemma IndexOfUnique(a: string, c: char, b: string)
    requires c !in a
    ensures IndexOf(a + [c] + b, c) == |a|
  {
    FirstIsFirst(a + [c] + b, c, |a|);
  }

  lemma FirstIsFirst(s: string, c: char, k: nat)
    requires k < |s| && s[k] == c && c !in s[..k]
    ensures IndexOf(s, c) == k
  {
  }

  lemma LastIndexOfUnique(a: string, c: char, b: string)
    requires c !in b
    ensures LastIndexOf(a + [c] + b, c) == |a|
  {
    var s := a + [c] + b;
    assert s[|a| + 1..] == b;
    LastIsLast(s, c, |a|);
  }

  lemma LastIsLast(s: string, c: char, k: nat)
    requires k < |s| && s[k] == c && c !in s[k + 1..]
    ensures LastIndexOf(s, c) == k
  {
  }

  predicate HasPrefix(s: string, prefix: string) {
    |prefix| <= |s| && s[..|prefix|] == prefix
  }

  /** A number in decimal. */
  function Decimal(n: nat): string {
    if n < 10 then [('0' as int + n) as char] else Decimal(n / 10) + Decimal(n % 10)
  }

  /** unicode.IsSpace. */
  predicate IsSpace(c: char) {
    var n := c as int;
    || 9 <= n <= 13 || n == 0x20 || n == 0x85 || n == 0xA0 || n == 0x1680
    || 0x2000 <= n <= 0x200A || n == 0x2028 || n == 0x2029 || n == 0x202F || n == 0x205F || n == 0x3000
  }

  function TrimLeft(s: string): string {
    if s != "" && IsSpace(s[0]) then TrimLeft(s[1..]) else s
  }

  function TrimRight(s: string): string {
    if s != "" && IsSpace(s[|s| - 1]) then TrimRight(s[..|s| - 1]) else s
  }

  /** strings.TrimSpace. */
  function TrimSpace(s: string): string {
    TrimRight(TrimLeft(s))
  }

  /** Trimming only removes characters at the two ends. */
  lemma TrimSpaceIsSlice(s: string) returns (from: nat, to: nat)
    ensures from <= to <= |s| && TrimSpace(s) == s[from..to]
  {
    from := TrimLeftIsSuffix(s);
    var n := TrimRightIsPrefix(TrimLeft(s));
    to := from + n;
  }

  lemma {:induction false} TrimLeftIsSuffix(s: string) returns (from: nat)
    ensures from <= |s| && TrimLeft(s) == s[from..]
  {
    from := 0;
    if s != "" && IsSpace(s[0]) {
      var k := TrimLeftIsSuffix(s[1..]);
      from := k + 1;
    }
  }

  lemma {:induction false} TrimRightIsPrefix(s: string) returns (to: nat)
    ensures to <= |s| && TrimRight(s) == s[..to]
  {
    to := |s|;
    if s != "" && IsSpace(s[|s| - 1]) {
      to := TrimRightIsPrefix(s[..|s| - 1]);
    }
  }
}
