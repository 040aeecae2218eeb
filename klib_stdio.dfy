/** `vsprintf` and `sprintf` of the bare-metal C library. The output buffer
    is a byte array; the format is the byte string it is read from; the
    variable arguments are a sequence of tagged values, a `char *` argument
    standing for the bytes it points to. Only `%s` and `%d` are converted. */
module KlibStdio {
  import opened KlibString

  datatype Option<T> = None | Some(value: T)

  /** A variable argument: a string (the bytes at the `char *`) or an `int`. */
  datatype Arg = Str(s: seq<byte>) | Int(i: int)

  const Percent: byte := 37
  const LowerS: byte := 115
  const LowerD: byte := 100
  const DigitZero: byte := 48

  predicate IsInt32(x: int)
  {
    -0x8000_0000 <= x < 0x8000_0000
  }

  // ---------------------------------------------------------------------
  // C integer division, which truncates toward zero.

  function CQuot10(d: int): (q: int)
    ensures Abs(q) <= Abs(d) / 10
    ensures d != 0 ==> Abs(q) < Abs(d)
  {
    if d >= 0 then d / 10 else -((-d) / 10)
  }

  function CRem10(d: int): (r: int)
    ensures -10 < r < 10 && d == 10 * CQuot10(d) + r
    ensures d >= 0 ==> r >= 0
    ensures d < 0 ==> r <= 0
  {
    d - 10 * CQuot10(d)
  }

  // ---------------------------------------------------------------------
  // The digits `%d` produces.

  /** The bytes the digit loop emits, lowest digit first: `'0' + d % 10`
      with C's remainder, until `d` is 0. */
  function DigitsRev(d: int): (r: seq<byte>)
    decreases Abs(d)
  {
    if d == 0 then [] else [DigitZero + CRem10(d)] + DigitsRev(CQuot10(d))
  }

  function Reverse(s: seq<byte>): (r: seq<byte>)
    ensures |r| == |s|
  {
    if s == [] then [] else Reverse(s[1..]) + [s[0]]
  }

  lemma {:induction false} ReverseAt(s: seq<byte>, i: nat)
    requires i < |s|
    ensures Reverse(s)[i] == s[|s| - 1 - i]
  {
    if i < |s| - 1 {
      ReverseAt(s[1..], i);
    }
  }

  lemma ReverseAll(s: seq<byte>)
    ensures forall i :: 0 <= i < |s| ==> Reverse(s)[i] == s[|s| - 1 - i]
  {
    forall i | 0 <= i < |s| {
      ReverseAt(s, i);
    }
  }

  /** What `%d` appends: the emitted digits after the swap loop. */
  function Decimal(d: int): seq<byte>
  {
    Reverse(DigitsRev(d))
  }

  /** The value of a string of decimal digits. */
  function DecimalValue(s: seq<byte>): int
  {
    if s == [] then 0 else 10 * DecimalValue(s[..|s| - 1]) + (s[|s| - 1] - DigitZero)
  }

  predicate IsDigit(b: byte)
  {
    DigitZero <= b <= DigitZero + 9
  }

  lemma {:induction false} DecimalRoundTripRev(d: nat)
    decreases d
    ensures DecimalValue(Decimal(d)) == d
    ensures forall i :: 0 <= i < |Decimal(d)| ==> IsDigit(Decimal(d)[i])
    ensures d > 0 ==> |Decimal(d)| > 0 && Decimal(d)[0] != DigitZero
  {
    if d > 0 {
      var q := CQuot10(d);
      DecimalRoundTripRev(q);
      var t := Decimal(q);
      assert Decimal(d) == t + [DigitZero + CRem10(d)];
      assert Decimal(d)[..|Decimal(d)| - 1] == t;
      if q > 0 {
        assert Decimal(d)[0] == t[0];
      }
    }
  }

  /** For a positive `d`, `%d` appends its decimal digits, most significant
      first and without a leading zero. */
  lemma DecimalRoundTrip(d: int)
    requires d > 0
    ensures DecimalValue(Decimal(d)) == d
    ensures |Decimal(d)| > 0 && Decimal(d)[0] != DigitZero
    ensures forall i :: 0 <= i < |Decimal(d)| ==> IsDigit(Decimal(d)[i])
  {
    DecimalRoundTripRev(d);
  }

  /** `%d` of 0 appends nothing, because the digit loop never runs; `%d`
      of -12 appends "/." (bytes 47 and 46), because C's remainder is
      negative there. */
  lemma DecimalAsWritten()
    ensures Decimal(0) == []
    ensures Decimal(-12) == [47, 46]
  {
    assert DigitsRev(-1) == [47];
    assert DigitsRev(-12) == [46, 47];
    assert Reverse([47]) == [47];
  }

  /** `%d` as intended: "0" for zero, a minus sign before the digits of a
      negative number. */
  function DecimalCorrected(d: int): seq<byte>
  {
    if d == 0 then [DigitZero]
    else if d < 0 then [45] + Decimal(-d)
    else Decimal(d)
  }

  /** Reading back a signed decimal. */
  function SignedValue(s: seq<byte>): int
  {
    if |s| > 0 && s[0] == 45 then -DecimalValue(s[1..]) else DecimalValue(s)
  }

  /** The corrected conversion round-trips every value, and never writes a
      leading zero except for 0 itself. */
  lemma DecimalCorrectedRoundTrip(d: int)
    ensures SignedValue(DecimalCorrected(d)) == d
    ensures |DecimalCorrected(d)| > 0
    ensures d != 0 ==> DecimalCorrected(d)[if d < 0 then 1 else 0] != DigitZero
  {
    if d == 0 {
      assert DecimalValue([DigitZero]) == 10 * DecimalValue([]) + 0;
    } else if d < 0 {
      var s := Decimal(-d);
      DecimalRoundTrip(-d);
      var c := [45] + s;
      assert DecimalCorrected(d) == c;
      assert c[0] == 45 && c[1..] == s && c[1] == s[0];
    } else {
      var s := Decimal(d);
      DecimalRoundTrip(d);
      assert DecimalCorrected(d) == s;
      assert IsDigit(s[0]);
    }
  }

  // ---------------------------------------------------------------------
  // The format interpreter.

  /** The bytes `vsprintf` writes before the final NUL when it reads `fmt`
      from `p` on and the arguments from `ai` on; None when the format or
      the arguments take C into undefined behaviour: `fmt` has no NUL, a
      `%` is the last byte before the NUL, a conversion has no argument
      left or one of the wrong kind, or a `%s` argument has no NUL. A `%`
      followed by any other byte consumes both and writes nothing. */
  function Format(fmt: seq<byte>, p: nat, args: seq<Arg>, ai: nat): (r: Option<seq<byte>>)
    decreases |fmt| - p
    ensures r.Some? ==> p < |fmt|
  {
    if p >= |fmt| then None
    else if fmt[p] == 0 then Some([])
    else if fmt[p] != Percent then Prepend([fmt[p]], Format(fmt, p + 1, args, ai))
    else if p + 1 >= |fmt| || fmt[p + 1] == 0 then None
    else if fmt[p + 1] == LowerS then
      if ai < |args| && args[ai].Str? && 0 in args[ai].s then
        Prepend(args[ai].s[..StrLen(args[ai].s, 0)], Format(fmt, p + 2, args, ai + 1))
      else None
    else if fmt[p + 1] == LowerD then
      if ai < |args| && args[ai].Int? && IsInt32(args[ai].i) then
        Prepend(Decimal(args[ai].i), Format(fmt, p + 2, args, ai + 1))
      else None
    else Format(fmt, p + 2, args, ai)
  }

  /** `x` before the rest of the output, when there is one. Its ensures only
      unfold the body, for the proofs about `Format`. */
  function Prepend(x: seq<byte>, o: Option<seq<byte>>): (r: Option<seq<byte>>)
    ensures r.Some? <==> o.Some?
    ensures r.Some? ==> r.value == x + o.value
  {
    if o.Some? then Some(x + o.value) else None
  }

  /** A format without `%` is copied verbatim up to its NUL, whatever the
      arguments. */
  lemma {:induction false} FormatPlain(fmt: seq<byte>, p: nat, args: seq<Arg>, ai: nat)
    requires HasNul(fmt, p)
    requires forall i :: p <= i < p + StrLen(fmt, p) ==> fmt[i] != Percent
    decreases |fmt| - p
    ensures Format(fmt, p, args, ai) == Some(fmt[p..p + StrLen(fmt, p)])
  {
    if fmt[p] != 0 {
      HasNulNext(fmt, p);
      assert StrLen(fmt, p) == 1 + StrLen(fmt, p + 1);
      assert fmt[p] != Percent;
      FormatPlain(fmt, p + 1, args, ai);
      assert [fmt[p]] + fmt[p + 1..p + StrLen(fmt, p)] == fmt[p..p + StrLen(fmt, p)];
    } else {
      assert StrLen(fmt, p) == 0;
    }
  }

  /** The output has no NUL before the terminator `vsprintf` adds, so the
      buffer holds a C string whose length is the result minus one. */
  lemma {:induction false} FormatNoNul(fmt: seq<byte>, p: nat, args: seq<Arg>, ai: nat)
    requires Format(fmt, p, args, ai).Some?
    decreases |fmt| - p
    ensures forall i :: 0 <= i < |Format(fmt, p, args, ai).value| ==> Format(fmt, p, args, ai).value[i] != 0
  {
    var r := Format(fmt, p, args, ai).value;
    if fmt[p] == 0 {
    } else if fmt[p] != Percent {
      FormatNoNul(fmt, p + 1, args, ai);
    } else if fmt[p + 1] == LowerS {
      FormatNoNul(fmt, p + 2, args, ai + 1);
    } else if fmt[p + 1] == LowerD {
      FormatNoNul(fmt, p + 2, args, ai + 1);
      DigitsNonZero(args[ai].i);
    } else {
      FormatNoNul(fmt, p + 2, args, ai);
    }
  }

  /** No digit byte, not even one below '0', is a NUL. */
  lemma DigitsNonZero(d: int)
    ensures forall i :: 0 <= i < |Decimal(d)| ==> Decimal(d)[i] != 0
  {
    DigitsRevNonZero(d);
    ReverseAll(DigitsRev(d));
  }

  lemma {:induction false} DigitsRevNonZero(d: int)
    decreases Abs(d)
    ensures forall i :: 0 <= i < |DigitsRev(d)| ==> DigitsRev(d)[i] != 0
  {
    if d != 0 {
      DigitsRevNonZero(CQuot10(d));
    }
  }

  /** What `vsprintf` leaves in the buffer is a C string of `ret - 1` bytes. */
  lemma VsprintfString(mem: seq<byte>, fmt: seq<byte>, args: seq<Arg>)
    requires Format(fmt, 0, args, 0).Some? && |Format(fmt, 0, args, 0).value| < |mem|
    ensures var out := Format(fmt, 0, args, 0).value;
      HasNul(Splice(mem, 0, out + [0]), 0) && CStr(Splice(mem, 0, out + [0]), 0) == out
  {
    FormatNoNul(fmt, 0, args, 0);
    WrittenString(mem, 0, Format(fmt, 0, args, 0).value);
  }

  // ---------------------------------------------------------------------
  // vsprintf and sprintf.

  /** The `%s` loop: append the `strlen(s)` bytes of `s` at `at`; the
      result is the new output count. */
  method AppendStr(out: array<byte>, at: nat, s: seq<byte>) returns (ret: nat)
    requires 0 in s && at + StrLen(s, 0) <= out.Length
    modifies out
    ensures ret == at + StrLen(s, 0)
    ensures out[..] == Splice(old(out[..]), at, s[..StrLen(s, 0)])
  {
    ghost var o := out[..];
    var len := StrLen(s, 0);
    var i := 0;
    ret := at;
    while i < len
      invariant i <= len && ret == at + i
      invariant out[..] == Splice(o, at, s[..i])
    {
      SpliceAppend(o, at, s[..i], s[i]);
      assert s[..i] + [s[i]] == s[..i + 1];
      out[ret] := s[i];
      ret := ret + 1;
      i := i + 1;
    }
  }

  /** The `%d` digit loop: append the digits of `d`, lowest first. */
  method EmitDigits(out: array<byte>, at: nat, d: int) returns (ret: nat)
    requires at + |DigitsRev(d)| <= out.Length
    modifies out
    ensures ret == at + |DigitsRev(d)|
    ensures out[..] == Splice(old(out[..]), at, DigitsRev(d))
  {
    ghost var o := out[..];
    ghost var emitted: seq<byte> := [];
    var x := d;
    ret := at;
    while x != 0
      invariant DigitsRev(d) == emitted + DigitsRev(x)
      invariant ret == at + |emitted|
      invariant out[..] == Splice(o, at, emitted)
      decreases Abs(x)
    {
      DigitStep(d, emitted, x);
      SpliceAppend(o, at, emitted, DigitZero + CRem10(x));
      out[ret] := DigitZero + CRem10(x);
      ret := ret + 1;
      emitted := emitted + [DigitZero + CRem10(x)];
      x := CQuot10(x);
    }
    assert DigitsRev(x) == [] && emitted + [] == emitted;
  }

  /** One more digit moves from the ones still to come to the emitted ones. */
  lemma DigitStep(d: int, emitted: seq<byte>, x: int)
    requires x != 0 && DigitsRev(d) == emitted + DigitsRev(x)
    ensures DigitsRev(d) == (emitted + [DigitZero + CRem10(x)]) + DigitsRev(CQuot10(x))
  {
    assert DigitsRev(x) == [DigitZero + CRem10(x)] + DigitsRev(CQuot10(x));
  }

  /** The swap loop: reverse `out[l..r]`, both ends included, in place. */
  method ReverseRange(out: array<byte>, l: nat, r: int)
    requires l <= r + 1 <= out.Length
    modifies out
    ensures out[..] == Splice(old(out[..]), l, Reverse(old(out[..])[l..r + 1]))
  {
    ghost var o := out[..];
    var lo: int := l;
    var hi := r;
    while lo < hi
      invariant l <= lo && hi <= r && lo - l == r - hi
      invariant lo <= hi + 1
      invariant forall j :: l <= j < lo ==> out[j] == o[l + r - j]
      invariant forall j :: hi < j <= r ==> out[j] == o[l + r - j]
      invariant forall j :: 0 <= j < out.Length && !(l <= j < lo || hi < j <= r) ==> out[j] == o[j]
      decreases hi - lo
    {
      var t := out[lo];
      out[lo] := out[hi];
      out[hi] := t;
      lo := lo + 1;
      hi := hi - 1;
    }
    SwappedIsReversed(o, out[..], l, r, lo, hi);
  }

  /** When the swap loop's two ends meet, the range is reversed. */
  lemma SwappedIsReversed(o: seq<byte>, cur: seq<byte>, l: nat, r: int, lo: int, hi: int)
    requires |cur| == |o| && l <= r + 1 <= |o|
    requires l <= lo && hi <= r && lo - l == r - hi && hi <= lo <= hi + 1
    requires forall j :: l <= j < lo ==> cur[j] == o[l + r - j]
    requires forall j :: hi < j <= r ==> cur[j] == o[l + r - j]
    requires forall j :: 0 <= j < |cur| && !(l <= j < lo || hi < j <= r) ==> cur[j] == o[j]
    ensures cur == Splice(o, l, Reverse(o[l..r + 1]))
  {
    var seg := o[l..r + 1];
    var want := Splice(o, l, Reverse(seg));
    forall j | 0 <= j < |cur|
      ensures cur[j] == want[j]
    {
      SpliceAt(o, l, Reverse(seg), j);
      if l <= j <= r {
        ReverseAt(seg, j - l);
        assert want[j] == seg[|seg| - 1 - (j - l)] == o[l + r - j];
      }
    }
  }

  /** `vsprintf`: interpret `fmt`, writing into `out`, then a NUL; the
      result counts the NUL. */
  method Vsprintf(out: array<byte>, fmt: seq<byte>, args: seq<Arg>) returns (ret: nat)
    requires Format(fmt, 0, args, 0).Some?
    requires |Format(fmt, 0, args, 0).value| < out.Length
    modifies out
    ensures ret == |Format(fmt, 0, args, 0).value| + 1
    ensures out[..] == Splice(old(out[..]), 0, Format(fmt, 0, args, 0).value + [0])
  {
    ghost var o := out[..];
    ghost var whole := Format(fmt, 0, args, 0).value;
    ghost var done: seq<byte> := [];
    var p := 0;
    var ai := 0;
    ret := 0;
    while fmt[p] != 0
      invariant Format(fmt, p, args, ai).Some?
      invariant whole == done + Format(fmt, p, args, ai).value
      invariant ret == |done| && |whole| < out.Length
      invariant out[..] == Splice(o, 0, done)
      decreases |fmt| - p
    {
      if fmt[p] != Percent {
        FormatLiteral(fmt, p, args, ai);
        Regroup(whole, done, [fmt[p]], Format(fmt, p + 1, args, ai).value);
        SpliceAppend(o, 0, done, fmt[p]);
        out[ret] := fmt[p];
        ret := ret + 1;
        done := done + [fmt[p]];
        p := p + 1;
        continue;
      }
      FormatConversion(fmt, p, args, ai);
      p := p + 1;
      var c := fmt[p];
      p := p + 1;
      if c == LowerS {
        var s := args[ai].s;
        ai := ai + 1;
        ghost var piece := s[..StrLen(s, 0)];
        Regroup(whole, done, piece, Format(fmt, p, args, ai).value);
        ret := AppendStr(out, ret, s);
        SpliceConcat(o, 0, done, piece);
        done := done + piece;
      } else if c == LowerD {
        var d := args[ai].i;
        ai := ai + 1;
        Regroup(whole, done, Decimal(d), Format(fmt, p, args, ai).value);
        ret := AppendDecimal(out, ret, d);
        SpliceConcat(o, 0, done, Decimal(d));
        done := done + Decimal(d);
      }
    }
    assert Format(fmt, p, args, ai).value == [] && done + [] == done;
    SpliceAppend(o, 0, done, 0);
    ghost var before := out[..];
    out[ret] := 0;
    assert out[..] == before[ret := 0];
    ret := ret + 1;
  }

  /** A byte other than NUL and `%` is output as it is. */
  lemma FormatLiteral(fmt: seq<byte>, p: nat, args: seq<Arg>, ai: nat)
    requires Format(fmt, p, args, ai).Some? && fmt[p] != 0 && fmt[p] != Percent
    ensures Format(fmt, p + 1, args, ai).Some?
    ensures Format(fmt, p, args, ai).value == [fmt[p]] + Format(fmt, p + 1, args, ai).value
  {
  }

  /** A `%` and the byte after it: `%s` outputs the string argument, `%d`
      the decimal of the `int` argument, anything else nothing. */
  lemma FormatConversion(fmt: seq<byte>, p: nat, args: seq<Arg>, ai: nat)
    requires Format(fmt, p, args, ai).Some? && fmt[p] == Percent
    ensures p + 2 <= |fmt| && fmt[p + 1] != 0
    ensures fmt[p + 1] == LowerS ==>
      ai < |args| && args[ai].Str? && 0 in args[ai].s && Format(fmt, p + 2, args, ai + 1).Some? &&
      Format(fmt, p, args, ai).value == args[ai].s[..StrLen(args[ai].s, 0)] + Format(fmt, p + 2, args, ai + 1).value
    ensures fmt[p + 1] == LowerD ==>
      ai < |args| && args[ai].Int? && IsInt32(args[ai].i) && Format(fmt, p + 2, args, ai + 1).Some? &&
      Format(fmt, p, args, ai).value == Decimal(args[ai].i) + Format(fmt, p + 2, args, ai + 1).value
    ensures fmt[p + 1] != LowerS && fmt[p + 1] != LowerD ==>
      Format(fmt, p + 2, args, ai).Some? && Format(fmt, p, args, ai).value == Format(fmt, p + 2, args, ai).value
  {
  }

  /** Moving the next piece of output from the rest to what is done. */
  lemma Regroup(whole: seq<byte>, done: seq<byte>, piece: seq<byte>, rest: seq<byte>)
    requires whole == done + (piece + rest)
    ensures whole == (done + piece) + rest
  {
  }

  /** The `%d` case: the digit loop, then the swap loop over the digits
      it wrote (from `l`, the old count, to `r`, one before the new). */
  method AppendDecimal(out: array<byte>, at: nat, d: int) returns (ret: nat)
    requires at + |Decimal(d)| <= out.Length
    modifies out
    ensures ret == at + |Decimal(d)|
    ensures out[..] == Splice(old(out[..]), at, Decimal(d))
  {
    ghost var o := out[..];
    ret := EmitDigits(out, at, d);
    ghost var mid := out[..];
    SpliceAll(o, at, DigitsRev(d));
    assert mid[at..ret] == DigitsRev(d);
    ReverseRange(out, at, ret - 1);
    SpliceTwice(o, at, DigitsRev(d), Decimal(d));
  }

  /** A second write over the same range replaces the first. */
  lemma SpliceTwice(s: seq<byte>, at: nat, a: seq<byte>, b: seq<byte>)
    requires at + |a| <= |s| && |a| == |b|
    ensures Splice(Splice(s, at, a), at, b) == Splice(s, at, b)
  {
    SpliceAll(s, at, a);
    SpliceAll(Splice(s, at, a), at, b);
    SpliceAll(s, at, b);
  }

  /** `sprintf` is `vsprintf` on its variable arguments. */
  method Sprintf(out: array<byte>, fmt: seq<byte>, args: seq<Arg>) returns (ret: nat)
    requires Format(fmt, 0, args, 0).Some?
    requires |Format(fmt, 0, args, 0).value| < out.Length
    modifies out
    ensures ret == |Format(fmt, 0, args, 0).value| + 1
    ensures out[..] == Splice(old(out[..]), 0, Format(fmt, 0, args, 0).value + [0])
  {
    ret := Vsprintf(out, fmt, args);
  }

  /** The count `vsprintf` returns includes the NUL: formatting "ab" writes
      two bytes of text, while `Vsprintf` returns 3. */
  lemma SprintfCountsNul()
    ensures Format([97, 98, 0], 0, [], 0) == Some([97, 98])
    ensures |Format([97, 98, 0], 0, [], 0).value| + 1 == 3
  {
    var fmt: seq<byte> := [97, 98, 0];
    assert fmt[0] == 97 && fmt[1] == 98 && fmt[2] == 0;
    assert Format(fmt, 2, [], 0) == Some([]);
    assert [98] + [] == [98] && [97] + [98] == [97, 98];
    assert Format(fmt, 1, [], 0) == Some([98]);
    assert Format(fmt, 0, [], 0) == Some([97, 98]);
  }

  /** `sprintf` returning, as the C standard has it, the number of bytes
      written before the NUL: the length of the C string left in `out`. */
  method SprintfCorrected(out: array<byte>, fmt: seq<byte>, args: seq<Arg>) returns (n: nat)
    requires Format(fmt, 0, args, 0).Some?
    requires |Format(fmt, 0, args, 0).value| < out.Length
    modifies out
    ensures n == |Format(fmt, 0, args, 0).value|
    ensures HasNul(out[..], 0) && StrLen(out[..], 0) == n && CStr(out[..], 0) == Format(fmt, 0, args, 0).value
  {
    ghost var mem := out[..];
    var ret := Vsprintf(out, fmt, args);
    VsprintfString(mem, fmt, args);
    n := ret - 1;
  }
}
