/** The multibyte side of `<wchar.h>` that does not depend on a particular
    encoding: `wctob`, `mbsinit`, and the driver loop of `mbsnrtowcs` and
    `mbsrtowcs`, which calls `mbrtowc` once per character. The UTF-8 decoder
    behind `mbrtowc` is not part of this model: the loop is given it as a
    function `step` that it only knows through the contract every `mbrtowc`
    keeps. */
module Multibyte {
  import opened CTypes
  import opened WideString

  /** `EOF`. */
  const EOF: Int32 := -1

  /** `wctob(c)`: a wide character below 0x80 is its own single byte; any
      other value, `WEOF` included, has none and gives EOF. */
  function Wctob(c: UInt32): (r: Int32)
    ensures r != EOF <==> c <= 0x7F
    ensures r != EOF ==> r == c && 0 <= r
  {
    if c <= 0x7F then c else EOF
  }

  /** `mbsinit(ps)`. `mbstate_t` has no fields here, so every state is the
      initial one; the function answers 1 only for a null pointer. */
  function Mbsinit<S>(ps: Ptr?<S>): (r: Int32)
    ensures r == 1 <==> ps == null
    ensures r == 0 || r == 1
  {
    if ps == null then 1 else 0
  }

  /** `(size_t)-1`: `mbrtowc` found an illegal sequence. */
  const ILLEGAL: Usize := USIZE_MAX
  /** `(size_t)-2`: `mbrtowc` found the start of a character that the bytes
      available do not complete. */
  const INCOMPLETE: Usize := USIZE_MAX - 1

  /** What one `mbrtowc` call reports: the bytes it consumed (or one of the
      two codes above), the wide character it stored, and the conversion
      state it left in `*ps`. */
  datatype Decoded<S> = Decoded(amount: Usize, wc: WChar, state: S)

  /** `mbrtowc` applied to the bytes at an address, with a number of bytes
      available, from a conversion state. */
  type Decoder<!S> = (nat, nat, S) -> Decoded<S>

  /** The contract one `mbrtowc` call keeps: a count is at most the bytes
      available, and only the null character may consume no byte. */
  predicate Sane<S>(step: Decoder<S>, a: nat, n: nat, st: S)
  {
    var d := step(a, n, st);
    d.amount < INCOMPLETE ==> d.amount <= n && (d.wc != 0 ==> 1 <= d.amount)
  }

  /** The contract every call of `mbrtowc` keeps. */
  ghost predicate DecoderOk<S(!new)>(step: Decoder<S>)
  {
    forall a: nat, n: nat, st: S :: Sane(step, a, n, st)
  }

  /** Why the conversion loop ended. */
  datatype Stop =
    | Illegal     // `mbrtowc` reported an illegal sequence
    | Incomplete  // `mbrtowc` reported an incomplete character
    | NulChar     // a null character was decoded
    | Limit       // `src_len` bytes were consumed or `dst_len` characters stored

  /** How the loop ended: the characters it counted (the null character
      excluded), the source offset it stopped at, and the conversion state
      left in `*ps`. */
  datatype Outcome<S> = Outcome(stop: Stop, chars: seq<WChar>, offset: nat, state: S)

  /** The conversion loop from offset `offset` with `chars` already stored;
      `dstLen` is `None` when the destination is null (no bound). An
      incomplete character restores the state saved before it; a null
      character resets the offset, the source becoming the null pointer. */
  function Run<S(!new)>(step: Decoder<S>, src: nat, srcLen: Usize, dstLen: Option<nat>,
                  chars: seq<WChar>, offset: nat, state: S): (r: Outcome<S>)
    requires DecoderOk(step) && offset <= srcLen
    ensures chars <= r.chars
    decreases srcLen - offset
  {
    if (dstLen.Some? && |chars| >= dstLen.value) || offset >= srcLen then
      Outcome(Limit, chars, offset, state)
    else
      var d := step(src + offset, srcLen - offset, state);
      assert Sane(step, src + offset, srcLen - offset, state);
      if d.amount == ILLEGAL then Outcome(Illegal, chars, offset, d.state)
      else if d.amount == INCOMPLETE then Outcome(Incomplete, chars, offset, state)
      else if d.wc == 0 then Outcome(NulChar, chars, 0, d.state)
      else Run(step, src, srcLen, dstLen, chars + [d.wc], offset + d.amount, d.state)
  }

  /** How the loop can end: inside the source; having stored only nonzero
      characters, no more than the bytes read and at most `dst_len` of them
      (fewer when it met a null character, which takes a slot of its own);
      at the limit only when a bound was reached; before the end of the
      source when a character was illegal or incomplete. An incomplete
      character leaves the state from before it, so a caller that resumes
      from the returned source pointer and state meets the same incomplete
      character again. */
  lemma {:induction false} RunShape<S(!new)>(step: Decoder<S>, src: nat, srcLen: Usize,
      dstLen: Option<nat>, chars: seq<WChar>, offset: nat, state: S)
    requires DecoderOk(step) && offset <= srcLen
    ensures var r := Run(step, src, srcLen, dstLen, chars, offset, state);
      && r.offset <= srcLen && chars <= r.chars
      && (forall i :: |chars| <= i < |r.chars| ==> r.chars[i] != 0)
      && (|chars| <= offset ==> |r.chars| <= srcLen)
      && (dstLen.Some? && |chars| <= dstLen.value ==>
            |r.chars| <= dstLen.value && (r.stop == NulChar ==> |r.chars| < dstLen.value))
      && (r.stop == Limit ==> r.offset == srcLen || (dstLen.Some? && |r.chars| >= dstLen.value))
      && (r.stop == NulChar ==> r.offset == 0)
      && (r.stop == Illegal || r.stop == Incomplete ==> r.offset < srcLen)
      && (r.stop == Incomplete ==> step(src + r.offset, srcLen - r.offset, r.state).amount == INCOMPLETE)
    decreases srcLen - offset
  {
    if (dstLen.Some? && |chars| >= dstLen.value) || offset >= srcLen {
    } else {
      var d := step(src + offset, srcLen - offset, state);
      assert Sane(step, src + offset, srcLen - offset, state);
      if d.amount != ILLEGAL && d.amount != INCOMPLETE && d.wc != 0 {
        var next := chars + [d.wc];
        RunShape(step, src, srcLen, dstLen, next, offset + d.amount, d.state);
        var r := Run(step, src, srcLen, dstLen, next, offset + d.amount, d.state);
        assert r == Run(step, src, srcLen, dstLen, chars, offset, state);
        forall i | |chars| <= i < |r.chars|
          ensures r.chars[i] != 0
        {
          if i == |chars| {
            assert r.chars[i] == next[i];
          }
        }
      }
    }
  }

  /** The value `*src_ptr` holds afterwards: the null pointer after a null
      character, otherwise the first byte not converted. */
  function SrcAfter<S>(src: nat, o: Outcome<S>): nat
  {
    if o.stop == NulChar then 0 else src + o.offset
  }

  /** The count `mbsnrtowcs` returns, as the code computes it: 1 after an
      illegal sequence, otherwise the characters stored. */
  function ReturnAsWritten<S>(o: Outcome<S>): nat
  {
    if o.stop == Illegal then 1 else |o.chars|
  }

  /** The count `mbsnrtowcs` is meant to return: `(size_t)-1` after an
      illegal sequence, otherwise the characters stored. */
  function ReturnValue<S>(o: Outcome<S>): nat
  {
    if o.stop == Illegal then ILLEGAL else |o.chars|
  }

  /** As written, an illegal sequence is reported as 1, the same count as a
      successful conversion of one character: here a decoder that rejects
      the first byte and one that decodes it as 'A' give the caller the
      same answer. */
  lemma {:induction false} IllegalReadsAsOneChar()
    ensures
      var bad: Decoder<bool> := (a: nat, n: nat, st: bool) => Decoded(ILLEGAL, 0, st);
      var good: Decoder<bool> := (a: nat, n: nat, st: bool) =>
        if n == 0 then Decoded(INCOMPLETE, 0, st) else Decoded(1, 0x41, st);
      && DecoderOk(bad) && DecoderOk(good)
      && Run(bad, 0x1000, 1, None, [], 0, false).stop == Illegal
      && Run(good, 0x1000, 1, None, [], 0, false).stop == Limit
      && ReturnAsWritten(Run(bad, 0x1000, 1, None, [], 0, false))
         == ReturnAsWritten(Run(good, 0x1000, 1, None, [], 0, false)) == 1
  {
  }

  /** With the corrected count, a caller can tell an illegal sequence from
      any number of converted characters. */
  lemma {:induction false} ReturnValueFlagsIllegal<S(!new)>(step: Decoder<S>, src: nat, srcLen: Usize,
      dstLen: Option<nat>, state: S)
    requires DecoderOk(step) && srcLen < USIZE_MAX
    ensures var r := Run(step, src, srcLen, dstLen, [], 0, state);
      && (ReturnValue(r) == ILLEGAL <==> r.stop == Illegal)
      && (r.stop != Illegal ==> ReturnValue(r) == |r.chars| <= srcLen)
  {
    RunShape(step, src, srcLen, dstLen, [], 0, state);
  }

  /** What the destination holds after a conversion that ended as `o`, when
      it held `before`: the characters counted, then the null character if
      one was decoded, then what was there before. */
  predicate Stored(after: seq<WChar>, before: seq<WChar>, chars: seq<WChar>, nul: bool)
  {
    var n := if nul then |chars| + 1 else |chars|;
    && |after| == |before| && n <= |after|
    && (forall j :: 0 <= j < |chars| ==> after[j] == chars[j])
    && (nul ==> after[|chars|] == 0)
    && (forall j :: n <= j < |after| ==> after[j] == before[j])
  }

  /** A `*const c_char` variable whose address the caller passes as
      `src_ptr`: the conversion reads where it points and moves it. */
  class SourcePtr {
    var addr: nat

    constructor (addr: nat)
      ensures this.addr == addr
    {
      this.addr := addr;
    }
  }

  /** `mbsnrtowcs(dst, src_ptr, src_len, dst_len, ps)`: converts characters
      from `*src_ptr`, reading at most `src_len` bytes and, when `dst` is
      not null, storing at most `dst_len` wide characters (and the null
      character, if one is decoded). `*src_ptr` and `*ps` are left as
      `Run` describes; the count returned is the corrected one. */
  method Mbsnrtowcs<S(!new)>(dst: array?<WChar>, srcPtr: SourcePtr, srcLen: Usize, dstLen: Usize,
                       ps: Ptr<S>, step: Decoder<S>) returns (ret: Usize)
    requires DecoderOk(step)
    requires dst != null ==> dstLen <= dst.Length
    modifies dst, srcPtr, ps
    ensures
      var o := Run(step, old(srcPtr.addr), srcLen, if dst == null then None else Some(dstLen as nat),
                   [], 0, old(ps.val));
      && ret == ReturnValue(o)
      && srcPtr.addr == SrcAfter(old(srcPtr.addr), o)
      && ps.val == o.state
      && (dst != null ==> Stored(dst[..], old(dst[..]), o.chars, o.stop == NulChar))
  {
    var src := srcPtr.addr;
    ghost var limit: Option<nat> := if dst == null then None else Some(dstLen as nat);
    ghost var chars: seq<WChar> := [];
    ghost var o := Run(step, src, srcLen, limit, [], 0, ps.val);
    ghost var st := ps.val;
    var dstOffset: nat := 0;
    var srcOffset: nat := 0;
    while (dst == null || dstOffset < dstLen) && srcOffset < srcLen
      invariant srcOffset <= srcLen && dstOffset == |chars| <= srcOffset
      invariant dst != null ==> |chars| <= dstLen
      invariant dst != null ==> Stored(dst[..], old(dst[..]), chars, false)
      invariant Run(step, src, srcLen, limit, chars, srcOffset, st) == o && ps.val == st
      invariant srcPtr.addr == src
      decreases srcLen - srcOffset
    {
      var saved := ps.val;
      var d := step(src + srcOffset, srcLen - srcOffset, ps.val);
      RunStep(step, src, srcLen, limit, chars, srcOffset, saved);
      ps.val := d.state;
      if d.amount == ILLEGAL {
        assert o == Outcome(Illegal, chars, srcOffset, d.state);
        srcPtr.addr := src + srcOffset;
        return ILLEGAL;
      }
      if d.amount == INCOMPLETE {
        ps.val := saved;
        assert o == Outcome(Incomplete, chars, srcOffset, saved);
        srcPtr.addr := src + srcOffset;
        return dstOffset;
      }
      ghost var prev := if dst == null then [] else dst[..];
      if dst != null {
        dst[dstOffset] := d.wc;
        assert dst[..] == prev[dstOffset := d.wc];
      }
      if d.wc == 0 {
        assert o == Outcome(NulChar, chars, 0, d.state);
        if dst != null {
          StoredPush(prev, old(dst[..]), chars, 0, true);
        }
        // The source becomes the null pointer, at offset 0.
        srcPtr.addr := 0;
        return dstOffset;
      }
      if dst != null {
        StoredPush(prev, old(dst[..]), chars, d.wc, false);
      }
      dstOffset := dstOffset + 1;
      srcOffset := srcOffset + d.amount;
      chars := chars + [d.wc];
      st := d.state;
    }
    assert o == Outcome(Limit, chars, srcOffset, ps.val);
    srcPtr.addr := src + srcOffset;
    ret := dstOffset;
  }

  /** One turn of the loop: what the next `mbrtowc` call reports decides
      how the loop ends, or where it goes on from. */
  lemma {:induction false} RunStep<S(!new)>(step: Decoder<S>, src: nat, srcLen: Usize,
      dstLen: Option<nat>, chars: seq<WChar>, offset: nat, state: S)
    requires DecoderOk(step) && offset < srcLen && !(dstLen.Some? && |chars| >= dstLen.value)
    ensures var d := step(src + offset, srcLen - offset, state);
      && (d.amount < INCOMPLETE ==> offset + d.amount <= srcLen && (d.wc != 0 ==> 1 <= d.amount))
      && Run(step, src, srcLen, dstLen, chars, offset, state) ==
         if d.amount == ILLEGAL then Outcome(Illegal, chars, offset, d.state)
         else if d.amount == INCOMPLETE then Outcome(Incomplete, chars, offset, state)
         else if d.wc == 0 then Outcome(NulChar, chars, 0, d.state)
         else Run(step, src, srcLen, dstLen, chars + [d.wc], offset + d.amount, d.state)
  {
    assert Sane(step, src + offset, srcLen - offset, state);
  }

  /** Storing the next character keeps the destination as `Stored`
      describes: one more character counted, or the null character after
      the ones counted. */
  lemma {:induction false} StoredPush(after: seq<WChar>, before: seq<WChar>, chars: seq<WChar>,
      wc: WChar, nul: bool)
    requires Stored(after, before, chars, false) && |chars| < |after|
    requires nul ==> wc == 0
    ensures Stored(after[|chars| := wc], before, if nul then chars else chars + [wc], nul)
  {
    var a := after[|chars| := wc];
    var now := if nul then chars else chars + [wc];
    forall j | 0 <= j < |now|
      ensures a[j] == now[j]
    {
      if j < |chars| {
        assert a[j] == after[j];
      }
    }
  }

  /** `mbsrtowcs(dst, src, len, ps)`: `mbsnrtowcs` with no bound on the
      bytes read but the one `size_t` imposes. */
  method Mbsrtowcs<S(!new)>(dst: array?<WChar>, srcPtr: SourcePtr, len: Usize, ps: Ptr<S>,
                      step: Decoder<S>) returns (ret: Usize)
    requires DecoderOk(step)
    requires dst != null ==> len <= dst.Length
    modifies dst, srcPtr, ps
    ensures
      var o := Run(step, old(srcPtr.addr), USIZE_MAX, if dst == null then None else Some(len as nat),
                   [], 0, old(ps.val));
      && ret == ReturnValue(o)
      && srcPtr.addr == SrcAfter(old(srcPtr.addr), o)
      && ps.val == o.state
      && (dst != null ==> Stored(dst[..], old(dst[..]), o.chars, o.stop == NulChar))
  {
    ret := Mbsnrtowcs(dst, srcPtr, USIZE_MAX, len, ps, step);
  }
}
