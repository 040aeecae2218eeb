/** The string and memory functions of the bare-metal C library. Memory is
    one byte array `m`; a pointer is an offset into it, so source and
    destination of a copy may overlap exactly as they can in C. A C string
    at `p` is the bytes from `p` up to its first NUL. Bytes are compared as
    unsigned values. */
module KlibString {

  type byte = x: int | 0 <= x < 256

  /** There is a NUL at or after `p`. */
  ghost predicate HasNul(s: seq<byte>, p: nat)
  {
    exists i :: p <= i < |s| && s[i] == 0
  }

  /** The bytes from `p` on can be read up to the first NUL or for `n`
      bytes, whichever comes first. */
  ghost predicate Bounded(s: seq<byte>, p: nat, n: nat)
  {
    p + n <= |s| || HasNul(s, p)
  }

  lemma HasNulNext(s: seq<byte>, p: nat)
    requires HasNul(s, p) && p < |s| && s[p] != 0
    ensures HasNul(s, p + 1)
  {
    var i :| p <= i < |s| && s[i] == 0;
    assert p + 1 <= i;
  }

  lemma BoundedNext(s: seq<byte>, p: nat, n: nat)
    requires Bounded(s, p, n) && n > 0
    ensures p < |s| && (s[p] != 0 ==> Bounded(s, p + 1, n - 1))
  {
    if p + n > |s| {
      var i :| p <= i < |s| && s[i] == 0;
      if s[p] != 0 {
        HasNulNext(s, p);
      }
    }
  }

  /** The length of the string at `p`: the distance to its first NUL. */
  function StrLen(s: seq<byte>, p: nat): (n: nat)
    requires HasNul(s, p)
    decreases |s| - p
    ensures p + n < |s| && s[p + n] == 0
    ensures forall i :: p <= i < p + n ==> s[i] != 0
  {
    if s[p] == 0 then 0
    else
      HasNulNext(s, p);
      1 + StrLen(s, p + 1)
  }

  /** A NUL at `p + n` with none before it makes `n` the length at `p`. */
  lemma {:induction false} StrLenIs(s: seq<byte>, p: nat, n: nat)
    requires p + n < |s| && s[p + n] == 0
    requires forall i :: p <= i < p + n ==> s[i] != 0
    decreases n
    ensures HasNul(s, p) && StrLen(s, p) == n
  {
    assert s[p + n] == 0;
    if n > 0 {
      StrLenIs(s, p + 1, n - 1);
    }
  }

  /** Position of the first NUL among the `n` bytes at `p`, or `n`. */
  function PrefixLen(s: seq<byte>, p: nat, n: nat): (k: nat)
    requires Bounded(s, p, n)
    decreases n
    ensures k <= n && p + k <= |s|
    ensures k < n ==> p + k < |s| && s[p + k] == 0
    ensures forall i :: p <= i < p + k ==> s[i] != 0
  {
    if n == 0 then 0
    else
      BoundedNext(s, p, n);
      if s[p] == 0 then 0 else 1 + PrefixLen(s, p + 1, n - 1)
  }

  /** The string at `p`, without its NUL. */
  ghost function CStr(s: seq<byte>, p: nat): seq<byte>
    requires HasNul(s, p)
  {
    s[p..p + StrLen(s, p)]
  }

  /** The bytes before the first NUL among the `n` bytes at `p`. */
  ghost function NPrefix(s: seq<byte>, p: nat, n: nat): seq<byte>
    requires Bounded(s, p, n)
  {
    s[p..p + PrefixLen(s, p, n)]
  }

  /** `s` with `data` written at offset `at`, one byte after another. */
  ghost function Splice(s: seq<byte>, at: nat, data: seq<byte>): (r: seq<byte>)
    requires at + |data| <= |s|
    decreases |data|
    ensures |r| == |s|
  {
    if data == [] then s
    else Splice(s, at, data[..|data| - 1])[at + |data| - 1 := data[|data| - 1]]
  }

  /** Inside the written range a spliced sequence holds `data`, elsewhere `s`. */
  lemma {:induction false} SpliceAt(s: seq<byte>, at: nat, data: seq<byte>, i: nat)
    requires at + |data| <= |s| && i < |s|
    decreases |data|
    ensures Splice(s, at, data)[i] == (if at <= i < at + |data| then data[i - at] else s[i])
  {
    if data != [] {
      SpliceAt(s, at, data[..|data| - 1], i);
    }
  }

  lemma SpliceAll(s: seq<byte>, at: nat, data: seq<byte>)
    requires at + |data| <= |s|
    ensures forall i :: 0 <= i < |s| ==> Splice(s, at, data)[i] == (if at <= i < at + |data| then data[i - at] else s[i])
  {
    forall i | 0 <= i < |s| {
      SpliceAt(s, at, data, i);
    }
  }

  /** Splicing is overwriting the range: the bytes before and after it stay. */
  lemma SpliceIsConcat(s: seq<byte>, at: nat, data: seq<byte>)
    requires at + |data| <= |s|
    ensures Splice(s, at, data) == s[..at] + data + s[at + |data|..]
  {
    SpliceAll(s, at, data);
  }

  /** Writing one more byte right after spliced data extends the data. */
  lemma SpliceAppend(s: seq<byte>, at: nat, data: seq<byte>, x: byte)
    requires at + |data| < |s|
    ensures Splice(s, at, data)[at + |data| := x] == Splice(s, at, data + [x])
  {
    assert (data + [x])[..|data|] == data;
  }

  /** Writing one more byte right before spliced data extends the data. */
  lemma SplicePrepend(s: seq<byte>, at: nat, data: seq<byte>, x: byte)
    requires 0 < at && at + |data| <= |s|
    ensures Splice(s, at, data)[at - 1 := x] == Splice(s, at - 1, [x] + data)
  {
    var l := Splice(s, at, data)[at - 1 := x];
    var r := Splice(s, at - 1, [x] + data);
    SpliceAll(s, at, data);
    SpliceAll(s, at - 1, [x] + data);
    assert forall i :: 0 <= i < |s| ==> l[i] == r[i];
  }

  /** The regions [a, a + la) and [b, b + lb) do not overlap. */
  predicate Disjoint(a: nat, la: nat, b: nat, lb: nat)
  {
    a + la <= b || b + lb <= a
  }

  function Zeros(n: nat): (r: seq<byte>)
    ensures |r| == n && forall i :: 0 <= i < n ==> r[i] == 0
  {
    if n == 0 then [] else [0] + Zeros(n - 1)
  }

  /** Writing a string and a NUL at `at` leaves exactly that string at `at`. */
  lemma WrittenString(mem: seq<byte>, at: nat, str: seq<byte>)
    requires at + |str| < |mem|
    requires forall i :: 0 <= i < |str| ==> str[i] != 0
    ensures HasNul(Splice(mem, at, str + [0]), at)
    ensures CStr(Splice(mem, at, str + [0]), at) == str
  {
    var r := Splice(mem, at, str + [0]);
    forall i | at <= i < at + |str|
      ensures r[i] == str[i - at] && r[i] != 0
    {
      SpliceAt(mem, at, str + [0], i);
    }
    SpliceAt(mem, at, str + [0], at + |str|);
    StrLenIs(r, at, |str|);
    assert r[at..at + |str|] == str;
  }

  // ---------------------------------------------------------------------
  // Reference comparisons on the strings themselves.

  /** `strcmp` on two strings: 0 when they are equal, otherwise plus or
      minus one more than the first position where they differ or where one
      of them ends, positive when the first string is the greater there. */
  function StrCmpFrom(a: seq<byte>, b: seq<byte>, q: nat): int
    requires q <= |a| && q <= |b|
    decreases |a| - q
  {
    if q == |a| || q == |b| then
      (if q < |a| then q + 1 else if q < |b| then -(q + 1) else 0)
    else if a[q] > b[q] then q + 1
    else if a[q] < b[q] then -(q + 1)
    else StrCmpFrom(a, b, q + 1)
  }

  function StrCmpValue(a: seq<byte>, b: seq<byte>): int
  {
    StrCmpFrom(a, b, 0)
  }

  /** `strncmp` on the two bounded prefixes: plus or minus one more than the
      first position where both still have a byte and the bytes differ; 0
      if there is none, even when one string is longer. */
  function StrNCmpFrom(a: seq<byte>, b: seq<byte>, q: nat): int
    requires q <= |a| && q <= |b|
    decreases |a| - q
  {
    if q == |a| || q == |b| then 0
    else if a[q] > b[q] then q + 1
    else if a[q] < b[q] then -(q + 1)
    else StrNCmpFrom(a, b, q + 1)
  }

  function StrNCmpValue(a: seq<byte>, b: seq<byte>): int
  {
    StrNCmpFrom(a, b, 0)
  }

  /** The byte of a NUL-terminated string at position `q`, its NUL at the
      end. */
  function At(a: seq<byte>, q: nat): byte
  {
    if q < |a| then a[q] else 0
  }

  function Abs(x: int): nat
  {
    if x < 0 then -x else x
  }

  lemma {:induction false} StrCmpFromZeroIff(a: seq<byte>, b: seq<byte>, q: nat)
    requires q <= |a| && q <= |b| && a[..q] == b[..q]
    decreases |a| - q
    ensures StrCmpFrom(a, b, q) == 0 <==> a == b
  {
    if q < |a| && q < |b| {
      if a[q] == b[q] {
        assert a[..q + 1] == a[..q] + [a[q]] && b[..q + 1] == b[..q] + [b[q]];
        StrCmpFromZeroIff(a, b, q + 1);
      } else {
        assert a[q] != b[q];
      }
    } else if q < |a| || q < |b| {
      assert |a| != |b|;
    } else {
      assert a == a[..q] && b == b[..q];
    }
  }

  /** `strcmp` returns 0 exactly for equal strings. */
  lemma StrCmpZeroIff(a: seq<byte>, b: seq<byte>)
    ensures StrCmpValue(a, b) == 0 <==> a == b
  {
    StrCmpFromZeroIff(a, b, 0);
  }

  lemma {:induction false} StrCmpFromAntisym(a: seq<byte>, b: seq<byte>, q: nat)
    requires q <= |a| && q <= |b|
    decreases |a| - q
    ensures StrCmpFrom(b, a, q) == -StrCmpFrom(a, b, q)
  {
    if q < |a| && q < |b| && a[q] == b[q] {
      StrCmpFromAntisym(a, b, q + 1);
    }
  }

  /** Swapping the arguments of `strcmp` negates its result. */
  lemma StrCmpAntisym(a: seq<byte>, b: seq<byte>)
    ensures StrCmpValue(b, a) == -StrCmpValue(a, b)
  {
    StrCmpFromAntisym(a, b, 0);
  }

  lemma {:induction false} StrCmpFromLocates(a: seq<byte>, b: seq<byte>, q: nat)
    requires q <= |a| && q <= |b| && a[..q] == b[..q]
    requires forall i :: 0 <= i < |a| ==> a[i] != 0
    requires forall i :: 0 <= i < |b| ==> b[i] != 0
    decreases |a| - q
    ensures var r := StrCmpFrom(a, b, q);
      r != 0 ==>
        var d := Abs(r) - 1;
        q <= d <= |a| && d <= |b| && a[..d] == b[..d] && At(a, d) != At(b, d) &&
        (r > 0 <==> At(a, d) > At(b, d))
  {
    if q < |a| && q < |b| && a[q] == b[q] {
      assert a[..q + 1] == a[..q] + [a[q]] && b[..q + 1] == b[..q] + [b[q]];
      StrCmpFromLocates(a, b, q + 1);
    }
  }

  /** A nonzero `strcmp` result names the first position, counted from 1,
      where the NUL-terminated strings differ, and its sign is that of the
      unsigned comparison of the bytes there. */
  lemma StrCmpLocates(a: seq<byte>, b: seq<byte>)
    requires forall i :: 0 <= i < |a| ==> a[i] != 0
    requires forall i :: 0 <= i < |b| ==> b[i] != 0
    ensures var r := StrCmpValue(a, b);
      r != 0 ==>
        var d := Abs(r) - 1;
        d <= |a| && d <= |b| && a[..d] == b[..d] && At(a, d) != At(b, d) &&
        (r > 0 <==> At(a, d) > At(b, d))
  {
    StrCmpFromLocates(a, b, 0);
  }

  lemma {:induction false} StrNCmpFromZeroIff(a: seq<byte>, b: seq<byte>, q: nat)
    requires q <= |a| && q <= |b| && a[..q] == b[..q]
    decreases |a| - q
    ensures var k := if |a| < |b| then |a| else |b|;
      StrNCmpFrom(a, b, q) == 0 <==> a[..k] == b[..k]
  {
    var k := if |a| < |b| then |a| else |b|;
    if q < |a| && q < |b| {
      if a[q] == b[q] {
        assert a[..q + 1] == a[..q] + [a[q]] && b[..q + 1] == b[..q] + [b[q]];
        StrNCmpFromZeroIff(a, b, q + 1);
      } else {
        assert a[..k][q] != b[..k][q];
      }
    } else {
      assert q == k;
    }
  }

  /** `strncmp` returns 0 exactly when one bounded prefix is a prefix of the
      other: a string that ends early compares equal to any continuation. */
  lemma StrNCmpZeroIff(a: seq<byte>, b: seq<byte>)
    ensures var k := if |a| < |b| then |a| else |b|;
      StrNCmpValue(a, b) == 0 <==> a[..k] == b[..k]
  {
    StrNCmpFromZeroIff(a, b, 0);
  }

  lemma {:induction false} StrNCmpFromLocates(a: seq<byte>, b: seq<byte>, q: nat)
    requires q <= |a| && q <= |b| && a[..q] == b[..q]
    decreases |a| - q
    ensures var r := StrNCmpFrom(a, b, q);
      r != 0 ==>
        var d := Abs(r) - 1;
        q <= d < |a| && d < |b| && a[..d] == b[..d] && a[d] != b[d] && (r > 0 <==> a[d] > b[d])
  {
    if q < |a| && q < |b| && a[q] == b[q] {
      assert a[..q + 1] == a[..q] + [a[q]] && b[..q + 1] == b[..q] + [b[q]];
      StrNCmpFromLocates(a, b, q + 1);
    }
  }

  /** A nonzero `strncmp` result names the first differing position, counted
      from 1, and its sign is that of the unsigned comparison there. */
  lemma StrNCmpLocates(a: seq<byte>, b: seq<byte>)
    ensures var r := StrNCmpValue(a, b);
      r != 0 ==>
        var d := Abs(r) - 1;
        d < |a| && d < |b| && a[..d] == b[..d] && a[d] != b[d] && (r > 0 <==> a[d] > b[d])
  {
    StrNCmpFromLocates(a, b, 0);
  }

  // ---------------------------------------------------------------------
  // The functions of string.c.

  /** `strlen`: count the bytes before the first NUL. */
  method Strlen(m: array<byte>, s: nat) returns (n: nat)
    requires HasNul(m[..], s)
    ensures n == StrLen(m[..], s)
  {
    n := 0;
    while m[s + n] != 0
      invariant s + n < m.Length && StrLen(m[..], s) >= n
      invariant forall i :: s <= i < s + n ==> m[i] != 0
      decreases StrLen(m[..], s) - n
    {
      n := n + 1;
    }
  }

  /** While the first `i` bytes of the string at `src` are copied to `at`,
      the next source byte is still the original one, and it is the NUL
      exactly when the whole string has been copied. */
  lemma CopyRead(mem: seq<byte>, at: nat, src: nat, i: nat, cur: seq<byte>)
    requires HasNul(mem, src) && i <= StrLen(mem, src) && at + StrLen(mem, src) < |mem|
    requires Disjoint(at, StrLen(mem, src) + 1, src, StrLen(mem, src) + 1)
    requires cur == Splice(mem, at, mem[src..src + i])
    ensures src + i < |cur| && cur[src + i] == mem[src + i]
    ensures cur[src + i] == 0 <==> i == StrLen(mem, src)
  {
    SpliceAt(mem, at, mem[src..src + i], src + i);
  }

  /** Copying one more byte extends the copied prefix. */
  lemma CopyStep(mem: seq<byte>, at: nat, src: nat, i: nat, cur: seq<byte>)
    requires src + i < |mem| && at + i < |mem|
    requires cur == Splice(mem, at, mem[src..src + i])
    ensures cur[at + i := mem[src + i]] == Splice(mem, at, mem[src..src + i + 1])
  {
    SpliceAppend(mem, at, mem[src..src + i], mem[src + i]);
    assert mem[src..src + i] + [mem[src + i]] == mem[src..src + i + 1];
  }

  /** Writing the NUL after the whole string completes the copy. */
  lemma CopyEnd(mem: seq<byte>, at: nat, src: nat, cur: seq<byte>)
    requires HasNul(mem, src) && at + StrLen(mem, src) < |mem|
    requires cur == Splice(mem, at, mem[src..src + StrLen(mem, src)])
    ensures cur[at + StrLen(mem, src) := 0] == Splice(mem, at, CStr(mem, src) + [0])
  {
    SpliceAppend(mem, at, CStr(mem, src), 0);
  }

  /** One step of the copy loop: the next source byte goes to the next
      destination byte. */
  method CopyByte(m: array<byte>, ghost mem: seq<byte>, at: nat, src: nat, i: nat)
    requires src + i < m.Length && at + i < m.Length && |mem| == m.Length
    requires m[..] == Splice(mem, at, mem[src..src + i]) && m[src + i] == mem[src + i]
    modifies m
    ensures m[..] == Splice(mem, at, mem[src..src + i + 1])
  {
    CopyStep(mem, at, src, i, m[..]);
    m[at + i] := m[src + i];
  }

  /** The copy loop of `strcpy` and `strcat`: the bytes of the string at
      `src`, then a NUL, written from `at` on. */
  method CopyString(m: array<byte>, at: nat, src: nat)
    requires HasNul(m[..], src)
    requires at + StrLen(m[..], src) < m.Length
    requires Disjoint(at, StrLen(m[..], src) + 1, src, StrLen(m[..], src) + 1)
    modifies m
    ensures m[..] == Splice(old(m[..]), at, CStr(old(m[..]), src) + [0])
  {
    ghost var mem := m[..];
    ghost var len := StrLen(mem, src);
    var i := 0;
    CopyRead(mem, at, src, i, m[..]);
    while m[src + i] != 0
      invariant i <= len && src + i < m.Length && at + len < m.Length
      invariant m[..] == Splice(mem, at, mem[src..src + i])
      invariant m[src + i] == mem[src + i]
      invariant m[src + i] == 0 <==> i == len
      decreases len - i
    {
      CopyByte(m, mem, at, src, i);
      i := i + 1;
      CopyRead(mem, at, src, i, m[..]);
    }
    CopyEnd(mem, at, src, m[..]);
    m[at + i] := 0;
  }

  /** `strcpy`: copy the string at `src`, NUL included, to `dst`. The
      regions must not overlap. */
  method Strcpy(m: array<byte>, dst: nat, src: nat) returns (ret: nat)
    requires HasNul(m[..], src)
    requires dst + StrLen(m[..], src) < m.Length
    requires Disjoint(dst, StrLen(m[..], src) + 1, src, StrLen(m[..], src) + 1)
    modifies m
    ensures ret == dst
    ensures m[..] == Splice(old(m[..]), dst, CStr(old(m[..]), src) + [0])
  {
    ret := dst;
    CopyString(m, dst, src);
  }

  /** After `strcpy`, the string at `dst` is the old string at `src`. */
  lemma StrcpyCopies(mem: seq<byte>, dst: nat, src: nat)
    requires HasNul(mem, src) && dst + StrLen(mem, src) < |mem|
    ensures HasNul(Splice(mem, dst, CStr(mem, src) + [0]), dst)
    ensures CStr(Splice(mem, dst, CStr(mem, src) + [0]), dst) == CStr(mem, src)
  {
    WrittenString(mem, dst, CStr(mem, src));
  }

  /** What `strncpy` writes: the bytes of `src` before its NUL, at most `n`,
      then NUL bytes up to `n` in all. */
  ghost function NCopy(mem: seq<byte>, src: nat, n: nat): seq<byte>
    requires Bounded(mem, src, n)
  {
    NPrefix(mem, src, n) + Zeros(n - PrefixLen(mem, src, n))
  }

  /** The bytes `strncpy` reads at `src`: up to and including the NUL, but
      no more than `n`. */
  ghost function ReadLen(mem: seq<byte>, src: nat, n: nat): nat
    requires Bounded(mem, src, n)
  {
    if PrefixLen(mem, src, n) < n then PrefixLen(mem, src, n) + 1 else n
  }

  /** While `strncpy` copies, the next source byte is still the original
      one, and the copy goes on exactly while the bounded prefix lasts. */
  lemma NCopyRead(mem: seq<byte>, dst: nat, src: nat, n: nat, i: nat, cur: seq<byte>)
    requires Bounded(mem, src, n) && dst + n <= |mem| && i <= PrefixLen(mem, src, n)
    requires Disjoint(dst, n, src, ReadLen(mem, src, n))
    requires cur == Splice(mem, dst, mem[src..src + i])
    ensures i < n ==> src + i < |cur| && cur[src + i] == mem[src + i]
    ensures (i < n && cur[src + i] != 0) <==> i < PrefixLen(mem, src, n)
  {
    if i < n {
      SpliceAt(mem, dst, mem[src..src + i], src + i);
    }
  }

  lemma ZerosSnoc(n: nat)
    ensures Zeros(n) + [0] == Zeros(n + 1)
  {
    assert forall i :: 0 <= i < n + 1 ==> (Zeros(n) + [0])[i] == 0;
  }

  /** The first loop of `strncpy`: copy the bytes of the string at `src`,
      but no more than `n`; the result is how many were copied. */
  method CopyPrefix(m: array<byte>, dst: nat, src: nat, n: nat) returns (i: nat)
    requires Bounded(m[..], src, n) && dst + n <= m.Length
    requires Disjoint(dst, n, src, ReadLen(m[..], src, n))
    modifies m
    ensures i == PrefixLen(old(m[..]), src, n)
    ensures m[..] == Splice(old(m[..]), dst, NPrefix(old(m[..]), src, n))
  {
    ghost var mem := m[..];
    i := 0;
    NCopyRead(mem, dst, src, n, i, m[..]);
    while i < n && m[src + i] != 0
      invariant i <= PrefixLen(mem, src, n)
      invariant m[..] == Splice(mem, dst, mem[src..src + i])
      invariant i < n ==> src + i < m.Length && m[src + i] == mem[src + i]
      invariant (i < n && m[src + i] != 0) <==> i < PrefixLen(mem, src, n)
      decreases PrefixLen(mem, src, n) - i
    {
      CopyByte(m, mem, dst, src, i);
      i := i + 1;
      NCopyRead(mem, dst, src, n, i, m[..]);
    }
  }

  /** `strncpy`: copy at most `n` bytes of the string at `src` to `dst` and
      pad with NULs to `n` bytes. The regions must not overlap. */
  method Strncpy(m: array<byte>, dst: nat, src: nat, n: nat) returns (ret: nat)
    requires Bounded(m[..], src, n) && dst + n <= m.Length
    requires Disjoint(dst, n, src, ReadLen(m[..], src, n))
    modifies m
    ensures ret == dst
    ensures m[..] == Splice(old(m[..]), dst, NCopy(old(m[..]), src, n))
  {
    ghost var mem := m[..];
    ghost var copied := NPrefix(mem, src, n);
    var i := CopyPrefix(m, dst, src, n);
    assert copied + Zeros(n - i) == NCopy(mem, src, n);
    Pad(m, dst + i, n - i);
    SpliceConcat(mem, dst, copied, Zeros(n - i));
    ret := dst;
  }

  /** The padding loop of `strncpy`: NUL bytes over the `k` bytes at `at`. */
  method Pad(m: array<byte>, at: nat, k: nat)
    requires at + k <= m.Length
    modifies m
    ensures m[..] == Splice(old(m[..]), at, Zeros(k))
  {
    ghost var mem := m[..];
    var i := 0;
    while i < k
      invariant i <= k
      invariant m[..] == Splice(mem, at, Zeros(i))
    {
      SpliceAppend(mem, at, Zeros(i), 0);
      ZerosSnoc(i);
      m[at + i] := 0;
      i := i + 1;
    }
  }

  /** Two adjacent writes are one write of both. */
  lemma SpliceConcat(s: seq<byte>, at: nat, a: seq<byte>, b: seq<byte>)
    requires at + |a| + |b| <= |s|
    ensures Splice(Splice(s, at, a), at + |a|, b) == Splice(s, at, a + b)
  {
    var l := Splice(Splice(s, at, a), at + |a|, b);
    var r := Splice(s, at, a + b);
    SpliceAll(s, at, a);
    SpliceAll(Splice(s, at, a), at + |a|, b);
    SpliceAll(s, at, a + b);
    assert forall i :: 0 <= i < |s| ==> l[i] == r[i];
  }

  /** `strncpy` writes exactly `n` bytes, and they hold a NUL exactly when
      the string at `src` is shorter than `n`. */
  lemma StrncpyTerminates(mem: seq<byte>, src: nat, n: nat)
    requires Bounded(mem, src, n)
    ensures |NCopy(mem, src, n)| == n
    ensures (exists i :: 0 <= i < n && NCopy(mem, src, n)[i] == 0) <==> PrefixLen(mem, src, n) < n
  {
    var c := NCopy(mem, src, n);
    var k := PrefixLen(mem, src, n);
    assert forall i :: 0 <= i < k ==> c[i] == mem[src + i] != 0;
    if k < n {
      assert c[k] == 0;
    }
  }

  /** `strcat`: copy the string at `src`, NUL included, over the NUL of the
      string at `dst`. The copied bytes must not overlap their source. */
  method Strcat(m: array<byte>, dst: nat, src: nat) returns (ret: nat)
    requires HasNul(m[..], dst) && HasNul(m[..], src)
    requires dst + StrLen(m[..], dst) + StrLen(m[..], src) < m.Length
    requires Disjoint(dst + StrLen(m[..], dst), StrLen(m[..], src) + 1, src, StrLen(m[..], src) + 1)
    modifies m
    ensures ret == dst
    ensures m[..] == Splice(old(m[..]), dst + StrLen(old(m[..]), dst), CStr(old(m[..]), src) + [0])
  {
    var dstLen := Strlen(m, dst);
    CopyString(m, dst + dstLen, src);
    ret := dst;
  }

  /** After `strcat`, the string at `dst` is the old one followed by the
      string at `src`. */
  lemma StrcatAppends(mem: seq<byte>, dst: nat, src: nat)
    requires HasNul(mem, dst) && HasNul(mem, src)
    requires dst + StrLen(mem, dst) + StrLen(mem, src) < |mem|
    ensures var r := Splice(mem, dst + StrLen(mem, dst), CStr(mem, src) + [0]);
      HasNul(r, dst) && CStr(r, dst) == CStr(mem, dst) + CStr(mem, src)
  {
    StringExtended(mem, dst, CStr(mem, src));
  }

  /** Writing a string and a NUL over the NUL of the string at `p` extends
      that string. */
  lemma StringExtended(mem: seq<byte>, p: nat, str: seq<byte>)
    requires HasNul(mem, p) && p + StrLen(mem, p) + |str| < |mem|
    requires forall i :: 0 <= i < |str| ==> str[i] != 0
    ensures var r := Splice(mem, p + StrLen(mem, p), str + [0]);
      HasNul(r, p) && CStr(r, p) == CStr(mem, p) + str
  {
    var at := p + StrLen(mem, p);
    SpliceKeeps(mem, at, str + [0], p);
    SpliceWritten(mem, at, str, 0);
    CStrConcat(Splice(mem, at, str + [0]), p, at, CStr(mem, p), str);
  }

  /** Splicing leaves the bytes before the written range alone. */
  lemma SpliceKeeps(s: seq<byte>, at: nat, data: seq<byte>, lo: nat)
    requires lo <= at && at + |data| <= |s|
    ensures Splice(s, at, data)[lo..at] == s[lo..at]
  {
    var r := Splice(s, at, data);
    forall i | lo <= i < at
      ensures r[i] == s[i]
    {
      SpliceAt(s, at, data, i);
    }
  }

  /** Splicing a string and one more byte leaves them in the range. */
  lemma SpliceWritten(s: seq<byte>, at: nat, str: seq<byte>, x: byte)
    requires at + |str| < |s|
    ensures Splice(s, at, str + [x])[at..at + |str|] == str
    ensures Splice(s, at, str + [x])[at + |str|] == x
  {
    var r := Splice(s, at, str + [x]);
    forall i | at <= i <= at + |str|
      ensures r[i] == (str + [x])[i - at]
    {
      SpliceAt(s, at, str + [x], i);
    }
  }

  /** A string followed by another and a NUL is their concatenation as a C
      string. */
  lemma CStrConcat(r: seq<byte>, p: nat, at: nat, a: seq<byte>, str: seq<byte>)
    requires p <= at && at + |str| < |r|
    requires r[p..at] == a && r[at..at + |str|] == str && r[at + |str|] == 0
    requires forall i :: 0 <= i < |a| ==> a[i] != 0
    requires forall i :: 0 <= i < |str| ==> str[i] != 0
    ensures HasNul(r, p) && CStr(r, p) == a + str
  {
    forall i | p <= i < at + |str|
      ensures r[i] != 0
    {
      if i < at {
        assert r[i] == a[i - p];
      } else {
        assert r[i] == str[i - at];
      }
    }
    StrLenIs(r, p, |a| + |str|);
    SliceSplit(r, p, at, at + |str|);
  }

  lemma SliceSplit(s: seq<byte>, i: nat, j: nat, k: nat)
    requires i <= j <= k <= |s|
    ensures s[i..k] == s[i..j] + s[j..k]
  {
  }

  /** `strcmp`: walk both strings while neither has ended; report the first
      difference, else which one is longer. */
  method Strcmp(m: array<byte>, s1: nat, s2: nat) returns (r: int)
    requires HasNul(m[..], s1) && HasNul(m[..], s2)
    ensures r == StrCmpValue(CStr(m[..], s1), CStr(m[..], s2))
  {
    ghost var a := CStr(m[..], s1);
    ghost var b := CStr(m[..], s2);
    var i := 1;
    var p1 := s1;
    var p2 := s2;
    while m[p1] != 0 && m[p2] != 0
      invariant 1 <= i && i - 1 <= |a| && i - 1 <= |b| && p1 == s1 + i - 1 && p2 == s2 + i - 1
      invariant m[p1] == At(a, i - 1) && m[p2] == At(b, i - 1)
      invariant StrCmpValue(a, b) == StrCmpFrom(a, b, i - 1)
      decreases |a| - i
    {
      if m[p1] > m[p2] {
        return i;
      }
      if m[p1] < m[p2] {
        return -i;
      }
      p1 := p1 + 1;
      p2 := p2 + 1;
      i := i + 1;
    }
    if m[p1] != 0 {
      return i;
    }
    if m[p2] != 0 {
      return -i;
    }
    return 0;
  }

  /** `strncmp`: walk at most `n` positions while neither string has ended;
      report the first difference, else 0. */
  method Strncmp(m: array<byte>, s1: nat, s2: nat, n: nat) returns (r: int)
    requires Bounded(m[..], s1, n) && Bounded(m[..], s2, n)
    ensures r == StrNCmpValue(NPrefix(m[..], s1, n), NPrefix(m[..], s2, n))
  {
    ghost var a := NPrefix(m[..], s1, n);
    ghost var b := NPrefix(m[..], s2, n);
    var i := 1;
    var p1 := s1;
    var p2 := s2;
    while i <= n && m[p1] != 0 && m[p2] != 0
      invariant 1 <= i && i - 1 <= |a| && i - 1 <= |b| && p1 == s1 + i - 1 && p2 == s2 + i - 1
      invariant StrNCmpValue(a, b) == StrNCmpFrom(a, b, i - 1)
      decreases |a| - i
    {
      if m[p1] > m[p2] {
        return i;
      }
      if m[p1] < m[p2] {
        return -i;
      }
      p1 := p1 + 1;
      p2 := p2 + 1;
      i := i + 1;
    }
    return 0;
  }

  /** `memcmp` is `strncmp` on the same bytes, so it stops at a NUL. */
  method Memcmp(m: array<byte>, s1: nat, s2: nat, n: nat) returns (r: int)
    requires Bounded(m[..], s1, n) && Bounded(m[..], s2, n)
    ensures r == StrNCmpValue(NPrefix(m[..], s1, n), NPrefix(m[..], s2, n))
  {
    r := Strncmp(m, s1, s2, n);
  }

  // ---------------------------------------------------------------------
  // memset stores a whole `int` at every step.

  /** Byte `t` (0 for the lowest) of the 32-bit two's complement form of `c`. */
  function IntByte(c: int, t: nat): (b: byte)
    requires t < 4
  {
    var u := c % 0x1_0000_0000;
    if t == 0 then u % 256
    else if t == 1 then (u / 0x100) % 256
    else if t == 2 then (u / 0x1_0000) % 256
    else u / 0x100_0000
  }

  /** The lowest byte of the store is the value modulo 256. */
  lemma LowByte(c: int)
    ensures IntByte(c, 0) == c % 256
  {
    var u := c % 0x1_0000_0000;
    var k := (c / 0x1_0000_0000) * 0x100_0000 + u / 256;
    assert c == 0x1_0000_0000 * (c / 0x1_0000_0000) + u;
    assert u == 256 * (u / 256) + u % 256;
    assert c == 256 * k + u % 256;
  }

  /** The four bytes a little-endian `int` store of `c` writes. */
  function IntBytes(c: int): (r: seq<byte>)
    ensures |r| == 4 && forall t :: 0 <= t < 4 ==> r[t] == IntByte(c, t)
  {
    [IntByte(c, 0), IntByte(c, 1), IntByte(c, 2), IntByte(c, 3)]
  }

  /** Reading the four bytes back as an unsigned little-endian number gives
      `c` modulo 2^32. */
  lemma IntBytesRoundTrip(c: int)
    ensures var r := IntBytes(c);
      r[0] as int + 0x100 * r[1] as int + 0x1_0000 * r[2] as int + 0x100_0000 * r[3] as int == c % 0x1_0000_0000
  {
    var u := c % 0x1_0000_0000;
    var q1 := u / 0x100;
    var q2 := q1 / 0x100;
    assert u == u % 256 + 0x100 * q1;
    assert q1 == q1 % 256 + 0x100 * q2;
    assert u / 0x1_0000 == q2;
    assert q2 == q2 % 256 + 0x100 * (u / 0x100_0000);
  }

  /** `n` copies of `b`. */
  function Repeat(b: byte, n: nat): (r: seq<byte>)
    ensures |r| == n && forall i :: 0 <= i < n ==> r[i] == b
  {
    if n == 0 then [] else [b] + Repeat(b, n - 1)
  }

  /** Memory after the `memset` of string.c: `n` int stores at `s`, `s + 1`,
      ..., each overwriting all but the lowest byte of the one before. */
  ghost function MemsetResult(mem: seq<byte>, s: nat, c: int, n: nat): seq<byte>
    requires n > 0 ==> s + n + 3 <= |mem|
  {
    if n == 0 then mem else Splice(mem, s, Repeat(IntByte(c, 0), n - 1) + IntBytes(c))
  }

  /** One `int` store: four bytes, lowest first. */
  method StoreInt(m: array<byte>, at: nat, c: int)
    requires at + 4 <= m.Length
    modifies m
    ensures m[..] == Splice(old(m[..]), at, IntBytes(c))
  {
    ghost var mem := m[..];
    m[at] := IntByte(c, 0);
    m[at + 1] := IntByte(c, 1);
    m[at + 2] := IntByte(c, 2);
    m[at + 3] := IntByte(c, 3);
    SpliceAll(mem, at, IntBytes(c));
    assert m[..] == Splice(mem, at, IntBytes(c));
  }

  /** The next store, one byte further on, keeps only the low byte of the
      previous one. */
  lemma MemsetStep(mem: seq<byte>, s: nat, c: int, k: nat)
    requires s + k + 4 <= |mem|
    ensures Splice(MemsetResult(mem, s, c, k), s + k, IntBytes(c)) == MemsetResult(mem, s, c, k + 1)
  {
    var m := MemsetResult(mem, s, c, k);
    var l := Splice(m, s + k, IntBytes(c));
    var data := Repeat(IntByte(c, 0), k) + IntBytes(c);
    var r := Splice(mem, s, data);
    assert r == MemsetResult(mem, s, c, k + 1);
    forall i | 0 <= i < |mem|
      ensures l[i] == r[i]
    {
      SpliceAt(m, s + k, IntBytes(c), i);
      SpliceAt(mem, s, data, i);
      if k > 0 {
        SpliceAt(mem, s, Repeat(IntByte(c, 0), k - 1) + IntBytes(c), i);
      }
    }
    assert l == r;
  }

  /** `memset` as string.c writes it: `n` overlapping int stores. */
  method Memset(m: array<byte>, s: nat, c: int, n: nat) returns (ret: nat)
    requires n > 0 ==> s + n + 3 <= m.Length
    modifies m
    ensures ret == s
    ensures m[..] == MemsetResult(old(m[..]), s, c, n)
  {
    ghost var mem := m[..];
    ret := s;
    var k := 0;
    while k < n
      invariant k <= n
      invariant m[..] == MemsetResult(mem, s, c, k)
    {
      MemsetStep(mem, s, c, k);
      StoreInt(m, s + k, c);
      k := k + 1;
    }
  }

  /** After `memset`, the `n` bytes at `s` hold the low byte of `c`, and the
      three bytes after them hold the other bytes of `c`: the stores run
      past the end of the region. */
  lemma MemsetFills(mem: seq<byte>, s: nat, c: int, n: nat)
    requires n > 0 && s + n + 3 <= |mem|
    ensures var r := MemsetResult(mem, s, c, n);
      (forall i :: s <= i < s + n ==> r[i] == c % 256) &&
      r[s + n] == IntByte(c, 1) && r[s + n + 1] == IntByte(c, 2) && r[s + n + 2] == IntByte(c, 3) &&
      (forall i :: 0 <= i < |mem| && (i < s || s + n + 3 <= i) ==> r[i] == mem[i])
  {
    var data := Repeat(IntByte(c, 0), n - 1) + IntBytes(c);
    var r := MemsetResult(mem, s, c, n);
    LowByte(c);
    forall i | 0 <= i < |mem|
      ensures s <= i < s + n ==> r[i] == c % 256
      ensures s + n <= i < s + n + 3 ==> r[i] == IntByte(c, i - s - n + 1)
      ensures i < s || s + n + 3 <= i ==> r[i] == mem[i]
    {
      SpliceAt(mem, s, data, i);
    }
  }

  /** Setting one byte of memory to 0 overwrites the three bytes after it. */
  lemma MemsetOverrun()
    ensures MemsetResult([7, 7, 7, 7, 7], 0, 0, 1) == [0, 0, 0, 0, 7]
  {
    SpliceAll([7, 7, 7, 7, 7], 0, IntBytes(0));
    assert Repeat(0, 0) + IntBytes(0) == [0, 0, 0, 0];
  }

  /** `memset` as intended: the `n` bytes at `s` become the low byte of `c`. */
  method MemsetCorrected(m: array<byte>, s: nat, c: int, n: nat) returns (ret: nat)
    requires s + n <= m.Length
    modifies m
    ensures ret == s
    ensures m[..] == Splice(old(m[..]), s, Repeat(c % 256, n))
  {
    ghost var mem := m[..];
    ret := s;
    var k := 0;
    while k < n
      invariant k <= n
      invariant m[..] == Splice(mem, s, Repeat(c % 256, k))
    {
      SpliceAppend(mem, s, Repeat(c % 256, k), c % 256);
      RepeatSnoc(c % 256, k);
      m[s + k] := c % 256;
      k := k + 1;
    }
  }

  lemma RepeatSnoc(b: byte, n: nat)
    ensures Repeat(b, n) + [b] == Repeat(b, n + 1)
  {
    assert forall i :: 0 <= i < n + 1 ==> (Repeat(b, n) + [b])[i] == b;
  }

  /** The corrected `memset` fills exactly the `n` bytes at `s`, and agrees
      there with the one string.c has. */
  lemma MemsetCorrectedFills(mem: seq<byte>, s: nat, c: int, n: nat)
    requires s + n <= |mem|
    ensures var r := Splice(mem, s, Repeat(c % 256, n));
      (forall i :: s <= i < s + n ==> r[i] == c % 256) &&
      (forall i :: 0 <= i < |mem| && (i < s || s + n <= i) ==> r[i] == mem[i]) &&
      (n > 0 && s + n + 3 <= |mem| ==> r[s..s + n] == MemsetResult(mem, s, c, n)[s..s + n])
  {
    SpliceAll(mem, s, Repeat(c % 256, n));
    if n > 0 && s + n + 3 <= |mem| {
      MemsetFills(mem, s, c, n);
    }
  }

  // ---------------------------------------------------------------------
  // memmove and memcpy.

  /** The forward copy of `memmove` only reads bytes it has not yet
      overwritten when the destination does not start inside the source
      after its first byte. */
  lemma ForwardRead(mem: seq<byte>, dst: nat, src: nat, n: nat, k: nat, cur: seq<byte>)
    requires src + n <= |mem| && dst + n <= |mem| && k < n
    requires dst <= src || src + n <= dst
    requires cur == Splice(mem, dst, mem[src..src + k])
    ensures cur[src + k] == mem[src + k]
  {
    SpliceAt(mem, dst, mem[src..src + k], src + k);
  }

  /** The backward copy reads below what it has already written. */
  lemma BackwardRead(mem: seq<byte>, dst: nat, src: nat, n: nat, k: nat, cur: seq<byte>)
    requires src + n <= |mem| && dst + n <= |mem| && 0 < k <= n && src < dst
    requires cur == Splice(mem, dst + k, mem[src + k..src + n])
    ensures cur[src + k - 1] == mem[src + k - 1]
  {
    SpliceAt(mem, dst + k, mem[src + k..src + n], src + k - 1);
  }

  /** Copying one more byte in front of the copied tail extends the tail. */
  lemma BackwardStep(mem: seq<byte>, dst: nat, src: nat, n: nat, k: nat, cur: seq<byte>)
    requires src + n <= |mem| && dst + n <= |mem| && 0 < k <= n
    requires cur == Splice(mem, dst + k, mem[src + k..src + n])
    ensures cur[dst + k - 1 := mem[src + k - 1]] == Splice(mem, dst + k - 1, mem[src + k - 1..src + n])
  {
    SplicePrepend(mem, dst + k, mem[src + k..src + n], mem[src + k - 1]);
    assert [mem[src + k - 1]] + mem[src + k..src + n] == mem[src + k - 1..src + n];
  }

  /** The first loop of `memmove`: copy front to back. */
  method CopyForward(m: array<byte>, dst: nat, src: nat, n: nat)
    requires src + n <= m.Length && dst + n <= m.Length
    requires dst <= src || src + n <= dst
    modifies m
    ensures m[..] == Splice(old(m[..]), dst, old(m[..])[src..src + n])
  {
    ghost var mem := m[..];
    var k: nat := 0;
    while k < n
      invariant k <= n
      invariant m[..] == Splice(mem, dst, mem[src..src + k])
    {
      ForwardRead(mem, dst, src, n, k, m[..]);
      CopyByte(m, mem, dst, src, k);
      k := k + 1;
    }
  }

  /** One step of the backward copy: the byte below the copied tail. */
  method BackByte(m: array<byte>, ghost mem: seq<byte>, dst: nat, src: nat, n: nat, k: nat)
    requires src + n <= m.Length && dst + n <= m.Length && 0 < k <= n && src < dst && |mem| == m.Length
    requires m[..] == Splice(mem, dst + k, mem[src + k..src + n])
    modifies m
    ensures m[..] == Splice(mem, dst + k - 1, mem[src + k - 1..src + n])
  {
    BackwardRead(mem, dst, src, n, k, m[..]);
    BackwardStep(mem, dst, src, n, k, m[..]);
    m[dst + k - 1] := m[src + k - 1];
  }

  /** The second loop of `memmove`: copy back to front. */
  method CopyBackward(m: array<byte>, dst: nat, src: nat, n: nat)
    requires src + n <= m.Length && dst + n <= m.Length && src < dst
    modifies m
    ensures m[..] == Splice(old(m[..]), dst, old(m[..])[src..src + n])
  {
    ghost var mem := m[..];
    var k: nat := n;
    assert mem[src + n..src + n] == [];
    while k > 0
      invariant k <= n
      invariant m[..] == Splice(mem, dst + k, mem[src + k..src + n])
    {
      BackByte(m, mem, dst, src, n, k);
      k := k - 1;
    }
  }

  /** `memmove`: copy `n` bytes from `src` to `dst`, front to back unless
      the destination starts inside the source, back to front then, so
      that overlapping regions are copied as if through a buffer. */
  method Memmove(m: array<byte>, dst: nat, src: nat, n: nat) returns (ret: nat)
    requires src + n <= m.Length && dst + n <= m.Length
    modifies m
    ensures ret == dst
    ensures m[..] == Splice(old(m[..]), dst, old(m[..])[src..src + n])
  {
    ret := dst;
    if dst <= src || dst >= src + n {
      CopyForward(m, dst, src, n);
      return;
    }
    CopyBackward(m, dst, src, n);
  }

  /** After `memmove`, the `n` bytes at `dst` are the `n` bytes that were at
      `src`, and nothing outside the destination changed. */
  lemma MemmoveCopies(mem: seq<byte>, dst: nat, src: nat, n: nat)
    requires src + n <= |mem| && dst + n <= |mem|
    ensures var r := Splice(mem, dst, mem[src..src + n]);
      r[dst..dst + n] == mem[src..src + n] &&
      forall i :: 0 <= i < |mem| && (i < dst || dst + n <= i) ==> r[i] == mem[i]
  {
    SpliceIsConcat(mem, dst, mem[src..src + n]);
  }

  /** `memcpy` is `memmove`, so overlapping regions are allowed. */
  method Memcpy(m: array<byte>, dst: nat, src: nat, n: nat) returns (ret: nat)
    requires src + n <= m.Length && dst + n <= m.Length
    modifies m
    ensures ret == dst
    ensures m[..] == Splice(old(m[..]), dst, old(m[..])[src..src + n])
  {
    ret := Memmove(m, dst, src, n);
  }

  // ---------------------------------------------------------------------
  // strncmp and memcmp as intended.

  /** When one string ends before `n` bytes and the other goes on, the
      `strncmp` of string.c still answers 0: "ab" and "abc" compare equal
      up to 3 bytes. */
  lemma StrncmpIgnoresEnd()
    ensures StrNCmpValue([97, 98], [97, 98, 99]) == 0
    ensures StrCmpValue([97, 98], [97, 98, 99]) == -3
  {
    assert StrNCmpFrom([97, 98], [97, 98, 99], 2) == 0;
    assert StrCmpFrom([97, 98], [97, 98, 99], 2) == -3;
  }

  /** `strncmp` as intended: `strcmp` on the bounded prefixes, so a string
      that ends first is the smaller. */
  method StrncmpCorrected(m: array<byte>, s1: nat, s2: nat, n: nat) returns (r: int)
    requires Bounded(m[..], s1, n) && Bounded(m[..], s2, n)
    ensures r == StrCmpValue(NPrefix(m[..], s1, n), NPrefix(m[..], s2, n))
  {
    ghost var a := NPrefix(m[..], s1, n);
    ghost var b := NPrefix(m[..], s2, n);
    var i := 1;
    var p1 := s1;
    var p2 := s2;
    while i <= n && m[p1] != 0 && m[p2] != 0
      invariant 1 <= i && i - 1 <= |a| && i - 1 <= |b| && p1 == s1 + i - 1 && p2 == s2 + i - 1
      invariant i <= n ==> p1 < m.Length && p2 < m.Length && m[p1] == At(a, i - 1) && m[p2] == At(b, i - 1)
      invariant StrCmpValue(a, b) == StrCmpFrom(a, b, i - 1)
      decreases |a| - i
    {
      if m[p1] > m[p2] {
        return i;
      }
      if m[p1] < m[p2] {
        return -i;
      }
      p1 := p1 + 1;
      p2 := p2 + 1;
      i := i + 1;
    }
    if i <= n && m[p1] != 0 {
      return i;
    }
    if i <= n && m[p2] != 0 {
      return -i;
    }
    return 0;
  }

  /** The `memcmp` of string.c stops at a NUL: "a\0b" and "a\0c" compare
      equal over 3 bytes although their third bytes differ. */
  lemma MemcmpStopsAtNul()
    ensures var mem: seq<byte> := [97, 0, 98, 97, 0, 99];
      StrNCmpValue(NPrefix(mem, 0, 3), NPrefix(mem, 3, 3)) == 0 && mem[0..3] != mem[3..6]
  {
    var mem: seq<byte> := [97, 0, 98, 97, 0, 99];
    assert PrefixLen(mem, 1, 2) == 0;
    assert PrefixLen(mem, 0, 3) == 1;
    assert PrefixLen(mem, 4, 2) == 0;
    assert PrefixLen(mem, 3, 3) == 1;
    assert mem[0..3][2] != mem[3..6][2];
  }

  /** `memcmp` as intended: compare all `n` bytes, NULs included. */
  method MemcmpCorrected(m: array<byte>, s1: nat, s2: nat, n: nat) returns (r: int)
    requires s1 + n <= m.Length && s2 + n <= m.Length
    ensures r == StrNCmpValue(m[s1..s1 + n], m[s2..s2 + n])
  {
    ghost var a := m[s1..s1 + n];
    ghost var b := m[s2..s2 + n];
    var i := 1;
    while i <= n
      invariant 1 <= i <= n + 1
      invariant StrNCmpValue(a, b) == StrNCmpFrom(a, b, i - 1)
    {
      if m[s1 + i - 1] > m[s2 + i - 1] {
        return i;
      }
      if m[s1 + i - 1] < m[s2 + i - 1] {
        return -i;
      }
      i := i + 1;
    }
    return 0;
  }

  /** The corrected `memcmp` answers 0 exactly for equal byte ranges. */
  lemma MemcmpCorrectedZeroIff(a: seq<byte>, b: seq<byte>)
    requires |a| == |b|
    ensures StrNCmpValue(a, b) == 0 <==> a == b
  {
    StrNCmpZeroIff(a, b);
    assert a[..|a|] == a && b[..|b|] == b;
  }
}
