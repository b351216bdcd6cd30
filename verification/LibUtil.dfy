/**
 The byte loops of `libutil.c`. A pointer is an array and an index into it, so two pointers may
 point into the same storage.
 */
module LibUtil {
  import opened Bits

  // ---------- memcpy ----------

  /** The storage after copying `n` bytes one by one, lowest first, each read when its turn comes. */
  function Copied(m: seq<byte>, d: nat, s: nat, n: nat): (r: seq<byte>)
    requires d + n <= |m| && s + n <= |m|
    ensures |r| == |m|
  {
    if n == 0 then m
    else
      var p := Copied(m, d, s, n - 1);
      p[d + n - 1 := p[s + n - 1]]
  }

  method MemCpy(mem: array<byte>, dest: nat, src: nat, n: nat)
    requires dest + n <= mem.Length && src + n <= mem.Length
    modifies mem
    ensures mem[..] == Copied(old(mem[..]), dest, src, n)
  {
    var d, s, left := dest, src, n;
    while left > 0
      invariant 0 <= left <= n && d == dest + (n - left) && s == src + (n - left)
      invariant mem[..] == Copied(old(mem[..]), dest, src, n - left)
    {
      mem[d] := mem[s];
      d, s, left := d + 1, s + 1, left - 1;
    }
  }

  /** `i` modulo `g`. */
  function Phase(i: nat, g: nat): (r: nat)
    requires g > 0
    ensures r < g && r <= i
  {
    if i < g then i else Phase(i - g, g)
  }

  /** Where byte `i` of a forward copy comes from: an overlap from below repeats. */
  function Origin(d: nat, s: nat, n: nat, i: nat): nat
    requires i < n
  {
    if d <= s || s + n <= d then s + i else s + Phase(i, d - s)
  }

  lemma {:induction false} CopiedByte(m: seq<byte>, d: nat, s: nat, n: nat, i: nat)
    requires d + n <= |m| && s + n <= |m| && i < n
    ensures Copied(m, d, s, n)[d + i] == m[Origin(d, s, n, i)]
    decreases n
  {
    if i < n - 1 {
      CopiedByte(m, d, s, n - 1, i);
    } else if s < d <= s + i {
      CopiedByte(m, d, s, n - 1, i - (d - s));
    } else {
      CopiedElsewhere(m, d, s, n - 1, s + i);
    }
  }

  /** Bytes outside the destination are unchanged. */
  lemma {:induction false} CopiedElsewhere(m: seq<byte>, d: nat, s: nat, n: nat, k: nat)
    requires d + n <= |m| && s + n <= |m| && k < |m| && !(d <= k < d + n)
    ensures Copied(m, d, s, n)[k] == m[k]
    decreases n
  {
    if n > 0 {
      CopiedElsewhere(m, d, s, n - 1, k);
    }
  }

  /**
   A forward copy inside one buffer is a correct move exactly when the destination is not above
   the start of the source, or does not overlap it, or the overlap already holds the same bytes.
   */
  lemma MoveExactly(m: seq<byte>, d: nat, s: nat, n: nat)
    requires d + n <= |m| && s + n <= |m|
    ensures Copied(m, d, s, n)[d..d + n] == m[s..s + n]
       <==> d <= s || s + n <= d || m[s..s + n - (d - s)] == m[d..s + n]
  {
    hide Copied;
    var r, x := Copied(m, d, s, n)[d..d + n], m[s..s + n];
    forall i | 0 <= i < n
      ensures r[i] == m[Origin(d, s, n, i)]
    {
      CopiedByte(m, d, s, n, i);
    }
    if d <= s || s + n <= d {
      assert r == x;
    } else {
      var g := d - s;
      assert m[s..s + n - g] == x[..n - g] && m[d..s + n] == x[g..];
      forall i | 0 <= i < n
        ensures r[i] == x[Phase(i, g)]
      {
        assert m[Origin(d, s, n, i)] == x[Phase(i, g)];
      }
      Repeats(x, g, r);
    }
  }

  /** Repeating the first `g` bytes gives `x` again just when `x` has the period `g`. */
  lemma Repeats(x: seq<byte>, g: nat, r: seq<byte>)
    requires 0 < g < |x| && |r| == |x|
    requires forall i :: 0 <= i < |x| ==> r[i] == x[Phase(i, g)]
    ensures r == x <==> x[..|x| - g] == x[g..]
  {
    var low, high := x[..|x| - g], x[g..];
    if r == x {
      forall i | 0 <= i < |x| - g
        ensures low[i] == high[i]
      {
        assert r[i + g] == x[Phase(i + g, g)] == x[Phase(i, g)] == r[i];
      }
    }
    if low == high {
      forall i | 0 <= i < |x|
        ensures r[i] == x[i]
      {
        Periodic(x, g, i);
      }
    }
  }

  lemma {:induction false} Periodic(x: seq<byte>, g: nat, i: nat)
    requires 0 < g < |x| && i < |x| && x[..|x| - g] == x[g..]
    ensures x[i] == x[Phase(i, g)]
    decreases i
  {
    if i >= g {
      Periodic(x, g, i - g);
      assert x[i] == x[g..][i - g] == x[..|x| - g][i - g];
    }
  }

  // ---------- memcmp and strings ----------

  /** The difference of the first bytes that differ, 0 if none do. */
  function Compare(x: seq<byte>, y: seq<byte>): int
    requires |x| == |y|
  {
    if x == [] then 0
    else if x[0] != y[0] then x[0] as int - y[0]
    else Compare(x[1..], y[1..])
  }

  /** The result is the difference at the first place where the buffers differ, and 0 without one. */
  lemma {:induction false} CompareFirst(x: seq<byte>, y: seq<byte>)
    requires |x| == |y|
    ensures Compare(x, y) == 0 <==> x == y
    ensures forall k :: 0 <= k < |x| && x[..k] == y[..k] && x[k] != y[k] ==> Compare(x, y) == x[k] as int - y[k]
  {
    if x != [] && x[0] == y[0] {
      CompareFirst(x[1..], y[1..]);
      assert x == [x[0]] + x[1..] && y == [y[0]] + y[1..];
      forall k | 0 <= k < |x| && x[..k] == y[..k] && x[k] != y[k]
        ensures Compare(x, y) == x[k] as int - y[k]
      {
        assert x[1..][..k - 1] == x[..k][1..] && y[1..][..k - 1] == y[..k][1..];
        assert x[1..][k - 1] == x[k] && y[1..][k - 1] == y[k];
      }
    } else if x != [] {
      assert forall k :: 0 < k < |x| ==> x[..k][0] == x[0] && y[..k][0] == y[0];
    }
  }

  method MemCmp(a: array<byte>, p: nat, b: array<byte>, q: nat, n: nat) returns (r: int)
    requires p + n <= a.Length && q + n <= b.Length
    ensures r == Compare(a[p..p + n], b[q..q + n])
  {
    var p1, p2, left := p, q, n;
    while left > 0
      invariant 0 <= left <= n && p1 + left == p + n && p2 + left == q + n
      invariant Compare(a[p..p + n], b[q..q + n]) == Compare(a[p1..p + n], b[p2..q + n])
    {
      if a[p1] != b[p2] {
        return a[p1] as int - b[p2];
      }
      p1, p2, left := p1 + 1, p2 + 1, left - 1;
    }
    return 0;
  }

  /** A NUL byte follows at or after `p`. */
  predicate Terminated(m: seq<byte>, p: nat)
    decreases |m| - p
  {
    p < |m| && (m[p] == 0 || Terminated(m, p + 1))
  }

  /** The string at `p`, without its terminator. */
  function Str(m: seq<byte>, p: nat): seq<byte>
    requires Terminated(m, p)
    decreases |m| - p
  {
    if m[p] == 0 then [] else [m[p]] + Str(m, p + 1)
  }

  lemma StrStep(m: seq<byte>, p: nat)
    requires Terminated(m, p)
    ensures p < |m|
    ensures m[p] == 0 ==> Str(m, p) == []
    ensures m[p] != 0 ==> Terminated(m, p + 1) && Str(m, p) == [m[p]] + Str(m, p + 1)
  {
  }

  /** A byte of a string is not NUL, and the byte after the string is. */
  lemma {:induction false} StrAt(m: seq<byte>, p: nat, i: nat)
    requires Terminated(m, p) && i <= |Str(m, p)|
    ensures p + |Str(m, p)| < |m|
    ensures m[p + i] == 0 <==> i == |Str(m, p)|
    ensures i < |Str(m, p)| ==> m[p + i] == Str(m, p)[i]
    decreases |m| - p
  {
    if m[p] != 0 {
      StrAt(m, p + 1, if i == 0 then 0 else i - 1);
    }
  }

  method StrLen(a: array<byte>, p: nat) returns (len: nat)
    requires Terminated(a[..], p)
    ensures len == |Str(a[..], p)|
  {
    hide Str, Terminated;
    len := 0;
    StrAt(a[..], p, 0);
    while a[p + len] != 0
      invariant len <= |Str(a[..], p)|
      decreases |Str(a[..], p)| - len
    {
      StrAt(a[..], p, len);
      len := len + 1;
    }
    StrAt(a[..], p, len);
  }

  /** The comparison of two strings on unsigned bytes, the shorter of two equal prefixes first. */
  function Order(x: seq<byte>, y: seq<byte>): int {
    if x == [] && y == [] then 0
    else if x == [] then -(y[0] as int)
    else if y == [] then x[0]
    else if x[0] != y[0] then x[0] as int - y[0]
    else Order(x[1..], y[1..])
  }

  /** What one look at both strings settles. */
  lemma OrderStep(m: seq<byte>, p: nat, n: seq<byte>, q: nat)
    requires Terminated(m, p) && Terminated(n, q)
    ensures p < |m| && q < |n|
    ensures m[p] != 0 && m[p] == n[q] ==>
      Terminated(m, p + 1) && Terminated(n, q + 1)
      && Order(Str(m, p), Str(n, q)) == Order(Str(m, p + 1), Str(n, q + 1))
    ensures m[p] == 0 || m[p] != n[q] ==> Order(Str(m, p), Str(n, q)) == m[p] as int - n[q]
  {
    hide Str, Terminated;
    StrStep(m, p);
    StrStep(n, q);
    if m[p] != 0 && m[p] == n[q] {
      assert Str(m, p)[1..] == Str(m, p + 1) && Str(n, q)[1..] == Str(n, q + 1);
    }
  }

  method StrCmp(a: array<byte>, p: nat, b: array<byte>, q: nat) returns (r: int)
    requires Terminated(a[..], p) && Terminated(b[..], q)
    ensures r == Order(Str(a[..], p), Str(b[..], q))
  {
    hide Str, Terminated, Order;
    var s1: nat, s2: nat := p, q;
    ghost var m, n := a[..], b[..];
    OrderStep(m, p, n, q);
    while a[s1] != 0 && a[s1] == b[s2]
      invariant s1 < a.Length && s2 < b.Length && Terminated(m, s1) && Terminated(n, s2)
      invariant Order(Str(m, p), Str(n, q)) == Order(Str(m, s1), Str(n, s2))
      decreases a.Length - s1
    {
      OrderStep(m, s1, n, s2);
      s1, s2 := s1 + 1, s2 + 1;
      OrderStep(m, s1, n, s2);
    }
    OrderStep(m, s1, n, s2);
    return a[s1] as int - b[s2];
  }

  /** The storage with `x` written at `d`. */
  function Written(m: seq<byte>, d: nat, x: seq<byte>): (r: seq<byte>)
    requires d + |x| <= |m|
    ensures |r| == |m| && r[..d] == m[..d] && r[d..d + |x|] == x && r[d + |x|..] == m[d + |x|..]
  {
    m[..d] + x + m[d + |x|..]
  }

  lemma WrittenNext(m: seq<byte>, d: nat, x: seq<byte>, c: byte)
    requires d + |x| < |m|
    ensures Written(m, d, x)[d + |x| := c] == Written(m, d, x + [c])
  {
  }

  method StrCpy(dst: array<byte>, d: nat, src: array<byte>, s: nat)
    requires Terminated(src[..], s) && d + |Str(src[..], s)| < dst.Length
    requires dst == src ==> d + |Str(src[..], s)| < s || s + |Str(src[..], s)| < d
    modifies dst
    ensures dst[..] == Written(old(dst[..]), d, old(Str(src[..], s)) + [0])
  {
    hide Str, Terminated, Written;
    ghost var m, was := src[..], dst[..];
    ghost var text := Str(m, s);
    var i := 0;
    StrAt(m, s, 0);
    assert dst[..] == Written(was, d, text[..0]) by {
      WrittenNothing(was, d);
    }
    while src[s + i] != 0
      invariant 0 <= i <= |text|
      invariant forall k :: s <= k <= s + |text| ==> src[k] == m[k]
      invariant dst[..] == Written(was, d, text[..i])
      decreases |text| - i
    {
      StrAt(m, s, i);
      WrittenNext(was, d, text[..i], text[i]);
      assert text[..i] + [text[i]] == text[..i + 1];
      dst[d + i] := src[s + i];
      i := i + 1;
    }
    StrAt(m, s, i);
    assert text[..i] == text;
    WrittenNext(was, d, text, 0);
    dst[d + i] := 0;
  }

  lemma WrittenNothing(m: seq<byte>, d: nat)
    requires d <= |m|
    ensures Written(m, d, []) == m
  {
  }

  // ---------- the order of strings ----------

  /** What `strcpy` writes reads back as the same string and compares equal to it. */
  lemma CopyComparesEqual(m: seq<byte>, d: nat, x: seq<byte>)
    requires 0 !in x && d + |x| < |m|
    ensures Terminated(Written(m, d, x + [0]), d) && Str(Written(m, d, x + [0]), d) == x
    ensures Order(x, Str(Written(m, d, x + [0]), d)) == 0
  {
    FindsString(Written(m, d, x + [0]), d, x);
    OrderProperties(x, x);
  }

  lemma {:induction false} FindsString(m: seq<byte>, p: nat, x: seq<byte>)
    requires p + |x| < |m| && m[p..p + |x|] == x && m[p + |x|] == 0 && 0 !in x
    ensures Terminated(m, p) && Str(m, p) == x
    decreases |x|
  {
    if x != [] {
      assert m[p] == x[0] && m[p + 1..p + 1 + |x[1..]|] == x[1..];
      FindsString(m, p + 1, x[1..]);
    }
  }

  /** `strcmp` is `memcmp` over the shorter string and its terminator. */
  lemma {:induction false} OrderIsCompare(x: seq<byte>, y: seq<byte>)
    requires 0 !in x && 0 !in y
    ensures var n := (if |x| < |y| then |x| else |y|) + 1;
            Order(x, y) == Compare((x + [0])[..n], (y + [0])[..n])
  {
    if x != [] && y != [] && x[0] == y[0] {
      OrderIsCompare(x[1..], y[1..]);
      var n := (if |x| < |y| then |x| else |y|) + 1;
      assert (x + [0])[..n][1..] == (x[1..] + [0])[..n - 1];
      assert (y + [0])[..n][1..] == (y[1..] + [0])[..n - 1];
    }
  }

  /** Byte `k` of a string with its terminator. */
  function ByteAt(x: seq<byte>, k: nat): byte
    requires k <= |x|
  {
    if k < |x| then x[k] else 0
  }

  /** The result is the difference at the first place where the strings, with terminators, differ. */
  lemma {:induction false} OrderFirst(x: seq<byte>, y: seq<byte>, k: nat)
    requires 0 !in x && 0 !in y && k <= |x| && k <= |y| && x[..k] == y[..k]
    requires ByteAt(x, k) != ByteAt(y, k)
    ensures Order(x, y) == ByteAt(x, k) as int - ByteAt(y, k)
  {
    if k > 0 {
      assert x[0] == x[..k][0] == y[..k][0] == y[0];
      assert x[1..][..k - 1] == x[..k][1..] && y[1..][..k - 1] == y[..k][1..];
      OrderFirst(x[1..], y[1..], k - 1);
    }
  }

  /** Zero means equal, and swapping the strings negates the result. */
  lemma {:induction false} OrderProperties(x: seq<byte>, y: seq<byte>)
    requires 0 !in x && 0 !in y
    ensures Order(x, y) == 0 <==> x == y
    ensures Order(y, x) == -Order(x, y)
  {
    if x != [] && y != [] && x[0] == y[0] {
      OrderProperties(x[1..], y[1..]);
      assert x == [x[0]] + x[1..] && y == [y[0]] + y[1..];
    }
  }

  /** With the two properties above, a total order. */
  lemma {:induction false} OrderTransitive(x: seq<byte>, y: seq<byte>, z: seq<byte>)
    requires 0 !in x && 0 !in y && 0 !in z
    requires Order(x, y) <= 0 && Order(y, z) <= 0
    ensures Order(x, z) <= 0
  {
    if x != [] && y != [] && z != [] && x[0] == y[0] == z[0] {
      OrderTransitive(x[1..], y[1..], z[1..]);
    }
  }
}
