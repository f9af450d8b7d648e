/** White space, trimming and byte lengths of text. */
module Strings {

  /** unicode.IsSpace. */
  predicate IsSpace(c: char) {
    var n := c as int;
    || 9 <= n <= 13 || n == 32 || n == 0x85 || n == 0xA0 || n == 0x1680
    || 0x2000 <= n <= 0x200A || n == 0x2028 || n == 0x2029 || n == 0x202F || n == 0x205F || n == 0x3000
  }

  function TrimLeft(s: string): string {
    if |s| > 0 && IsSpace(s[0]) then TrimLeft(s[1..]) else s
  }

  function TrimRight(s: string): string {
    if |s| > 0 && IsSpace(s[|s| - 1]) then TrimRight(s[..|s| - 1]) else s
  }

  function Trim(s: string): string {
    TrimRight(TrimLeft(s))
  }

  predicate Trimmed(t: string) {
    t != "" && !IsSpace(t[0]) && !IsSpace(t[|t| - 1])
  }

  lemma {:induction false} TrimRightKeepsHead(g: string)
    requires |g| > 0 && !IsSpace(g[0])
    ensures Trimmed(TrimRight(g))
    decreases |g|
  {
    if IsSpace(g[|g| - 1]) { TrimRightKeepsHead(g[..|g| - 1]); }
  }

  lemma {:induction false} TrimLeftHead(g: string)
    ensures TrimLeft(g) == "" || !IsSpace(TrimLeft(g)[0])
    decreases |g|
  {
    if |g| > 0 && IsSpace(g[0]) { TrimLeftHead(g[1..]); }
  }

  lemma TrimIsTrimmed(g: string)
    ensures Trim(g) == "" || Trimmed(Trim(g))
  {
    TrimLeftHead(g);
    if TrimLeft(g) != "" { TrimRightKeepsHead(TrimLeft(g)); }
  }

  lemma TrimTwice(g: string)
    ensures Trim(Trim(g)) == Trim(g)
  {
    TrimIsTrimmed(g);
  }

  predicate AllSpace(s: string) {
    forall i :: 0 <= i < |s| ==> IsSpace(s[i])
  }

  lemma {:induction false} TrimLeftCuts(s: string) returns (i: nat)
    ensures i <= |s| && TrimLeft(s) == s[i..] && AllSpace(s[..i])
    decreases |s|
  {
    if |s| > 0 && IsSpace(s[0]) {
      var k := TrimLeftCuts(s[1..]);
      i := k + 1;
      assert s[..i] == [s[0]] + s[1..][..k];
    } else {
      i := 0;
    }
  }

  lemma {:induction false} TrimRightCuts(s: string) returns (j: nat)
    ensures j <= |s| && TrimRight(s) == s[..j] && AllSpace(s[j..])
    decreases |s|
  {
    if |s| > 0 && IsSpace(s[|s| - 1]) {
      var n := |s| - 1;
      j := TrimRightCuts(s[..n]);
      assert s[j..] == s[..n][j..] + [s[n]] && s[..n][..j] == s[..j];
    } else {
      j := |s|;
    }
  }

  /** Trimming takes away white space at the two ends, as much as there is, and nothing else. */
  lemma TrimExactly(s: string) returns (i: nat, j: nat)
    ensures i <= j <= |s| && Trim(s) == s[i..j] && AllSpace(s[..i]) && AllSpace(s[j..])
    ensures i < j ==> !IsSpace(s[i]) && !IsSpace(s[j - 1])
  {
    i := TrimLeftCuts(s);
    var k := TrimRightCuts(s[i..]);
    j := i + k;
    assert s[i..][..k] == s[i..j] && s[i..][k..] == s[j..];
    TrimIsTrimmed(s);
  }

  lemma TrimBlankExactly(s: string)
    ensures Trim(s) == "" <==> AllSpace(s)
  {
    var i, j := TrimExactly(s);
    assert s == s[..i] + s[i..j] + s[j..];
    if i < j { assert !IsSpace(s[i]); }
  }

  /** Bytes of one character in UTF-8. */
  function CharBytes(c: char): nat {
    var n := c as int;
    if n < 0x80 then 1 else if n < 0x800 then 2 else if n < 0x1_0000 then 3 else 4
  }

  function Bytes(s: string): nat {
    if |s| == 0 then 0 else CharBytes(s[0]) + Bytes(s[1..])
  }

  lemma {:induction false} BytesConcat(s: string, t: string)
    ensures Bytes(s + t) == Bytes(s) + Bytes(t)
    decreases |s|
  {
    if |s| == 0 {
      assert s + t == t;
    } else {
      assert (s + t)[1..] == s[1..] + t;
      BytesConcat(s[1..], t);
    }
  }
}
