/*
 * The chunked transfer engine of btldr_img_op.c: img_process opens a
 * destination and a source area, insists that their sizes are equal,
 * optionally erases the destination, and walks the source in chunks of at
 * most TMP_BUF_SIZE bytes, handing every chunk to a callback that either
 * programs it into the destination at the same offset (cb_img_write) or
 * reads the matching destination chunk and compares (cb_img_cmp).
 *
 * A failing flash call calls on_factory_fw_recovery_fail, which never
 * returns; here it is the status Fatal, which every caller passes straight
 * up to the top-level driver that enters fault containment.
 */
module ImgOp {
  import opened Platform

  /** Size of the static chunk buffers tmp_buf1 and tmp_buf2. */
  const TMP_BUF_SIZE: nat := 256

  /** The two callbacks img_process is used with. */
  datatype Callback = WriteChunk | CompareChunk

  /** Fatal: on_factory_fw_recovery_fail was called. Done(b): the operation returned b. */
  datatype Status = Fatal | Done(success: bool)

  /** What an operation returns together with the calls it made. */
  datatype Outcome = Outcome(status: Status, events: seq<Event>)

  /** The length of the next chunk when `rem` bytes remain. */
  function ChunkLen(rem: nat): (len: nat)
    ensures len <= TMP_BUF_SIZE && len <= rem
    ensures 0 < rem ==> 0 < len
    ensures len < TMP_BUF_SIZE ==> len == rem
  {
    if rem > TMP_BUF_SIZE then TMP_BUF_SIZE else rem
  }

  /** The (offset, length) chunks of the walk from `off` to the end of a `size`-byte area. */
  function Chunks(off: nat, size: nat): seq<(nat, nat)>
    decreases size - off
  {
    if size <= off then []
    else
      var len := ChunkLen(size - off);
      [(off, len)] + Chunks(off + len, size)
  }

  /** The walk's chunks tile [off, size): consecutive, full-sized except the last, none empty. */
  lemma {:induction false} ChunksTile(off: nat, size: nat)
    requires off <= size
    ensures var cs := Chunks(off, size);
      && (cs == [] <==> off == size)
      && |cs| == (size - off + TMP_BUF_SIZE - 1) / TMP_BUF_SIZE
      && (forall k :: 0 <= k < |cs| ==> cs[k].0 == off + TMP_BUF_SIZE * k)
      && (forall k :: 0 <= k < |cs| ==> 0 < cs[k].1 <= TMP_BUF_SIZE)
      && (forall k :: 0 <= k < |cs| - 1 ==> cs[k].1 == TMP_BUF_SIZE)
      && (cs != [] ==> cs[|cs| - 1].0 + cs[|cs| - 1].1 == size)
    decreases size - off
  {
    if off < size {
      var len := ChunkLen(size - off);
      ChunksTile(off + len, size);
      var cs := Chunks(off, size);
      var rest := Chunks(off + len, size);
      assert cs == [(off, len)] + rest;
      if rest != [] {
        assert len == TMP_BUF_SIZE;
      }
      forall k | 0 <= k < |cs|
        ensures cs[k].0 == off + TMP_BUF_SIZE * k
      {
        if k > 0 {
          assert cs[k] == rest[k - 1];
        }
      }
    }
  }

  /** The callback's call for the chunk (off, len): cb_img_write writes it, cb_img_cmp reads the destination. */
  function CallbackEvent(dst: AreaId, cb: Callback, off: nat, len: nat): Event {
    if cb == WriteChunk then Write(dst, off, len) else Read(dst, off, len)
  }

  /** The two calls made for one chunk: read the source, then the callback's call. */
  function ChunkEvents(dst: AreaId, src: AreaId, cb: Callback, off: nat, len: nat): seq<Event> {
    [Read(src, off, len), CallbackEvent(dst, cb, off, len)]
  }

  /** The calls for a list of chunks, chunk by chunk. */
  function ChunkTrace(dst: AreaId, src: AreaId, cb: Callback, cs: seq<(nat, nat)>): seq<Event> {
    if cs == [] then [] else ChunkEvents(dst, src, cb, cs[0].0, cs[0].1) + ChunkTrace(dst, src, cb, cs[1..])
  }

  /** Whether the chunk (off, len) of two equal-size contents differs (the memcmp). */
  predicate Differs(srcData: seq<byte>, dstData: seq<byte>, c: (nat, nat))
    requires |srcData| == |dstData|
  {
    c.0 + c.1 <= |srcData| && srcData[c.0..c.0 + c.1] != dstData[c.0..c.0 + c.1]
  }

  /**
   * One pass of the loop body of img_process for the chunk (off, len), its
   * first call at log position `base`: the source read, then the callback's
   * write (cb_img_write) or destination read and memcmp (cb_img_cmp).
   * Done(true) when the loop goes on to the next chunk.
   */
  function ChunkOutcome(env: Env, base: nat, dst: AreaId, src: AreaId, srcData: seq<byte>, dstData: seq<byte>,
                        cb: Callback, off: nat, len: nat): Outcome
    requires |srcData| == |dstData|
  {
    if env.Fails(base, Read(src, off, len)) then Outcome(Fatal, [Read(src, off, len)])
    else if env.Fails(base + 1, CallbackEvent(dst, cb, off, len)) then Outcome(Fatal, ChunkEvents(dst, src, cb, off, len))
    else if cb == CompareChunk && Differs(srcData, dstData, (off, len)) then Outcome(Done(false), ChunkEvents(dst, src, cb, off, len))
    else Outcome(Done(true), ChunkEvents(dst, src, cb, off, len))
  }

  /** Both areas are present with equal sizes, and `off` lies within them. */
  predicate Walkable(mem: map<AreaId, seq<byte>>, dst: AreaId, src: AreaId, off: nat) {
    dst in mem && src in mem && |mem[dst]| == |mem[src]| && off <= |mem[src]|
  }

  /** The flash contents after one pass of the loop body that ended with status `st`. */
  function ChunkEffect(mem: map<AreaId, seq<byte>>, dst: AreaId, src: AreaId, cb: Callback, off: nat, len: nat,
                       st: Status): (r: map<AreaId, seq<byte>>)
    requires Walkable(mem, dst, src, off + len)
    ensures dst in r && src in r && |r[dst]| == |mem[dst]| && |r[src]| == |mem[src]|
  {
    if cb == WriteChunk && st == Done(true) then mem[dst := WriteAt(mem[dst], off, mem[src][off..off + len])]
    else mem
  }

  /** Where the loop of img_process, or img_process itself, ends: status, calls made, flash contents. */
  datatype Ending<M> = Final(status: Status, events: seq<Event>, mem: M)
  type Final = Ending<map<AreaId, seq<byte>>>

  /** `f` is the end `g` with the calls `done` made before it. */
  predicate Resumes(f: Final, done: seq<Event>, g: Final) {
    f.status == g.status && f.events == done + g.events && f.mem == g.mem
  }

  /**
   * The `while (rem_len > 0)` loop of img_process from offset `off` over the
   * flash contents `mem`, its first call at log position `at`.
   */
  function LoopFrom(env: Env, at: nat, mem: map<AreaId, seq<byte>>, dst: AreaId, src: AreaId,
                    cb: Callback, off: nat): (r: Final)
    requires Walkable(mem, dst, src, off)
    ensures dst in r.mem
    decreases |mem[src]| - off, 2
  {
    if off == |mem[src]| then Final(Done(true), [], mem)
    else NextChunk(env, at, mem, dst, src, cb, off)
  }

  /** The loop body at offset `off`: the chunk is at most TMP_BUF_SIZE bytes long. */
  function NextChunk(env: Env, at: nat, mem: map<AreaId, seq<byte>>, dst: AreaId, src: AreaId,
                     cb: Callback, off: nat): (r: Final)
    requires Walkable(mem, dst, src, off) && off < |mem[src]|
    ensures dst in r.mem
    decreases |mem[src]| - off, 1
  {
    Pass(env, at, mem, dst, src, cb, off, ChunkLen(|mem[src]| - off))
  }

  /**
   * One pass of the loop body for the chunk (off, len): the chunk is read and
   * handed to the callback, reading the contents as they are at that point;
   * the loop stops when the callback fails or rejects the chunk.
   */
  function Pass(env: Env, at: nat, mem: map<AreaId, seq<byte>>, dst: AreaId, src: AreaId,
                cb: Callback, off: nat, len: nat): (r: Final)
    requires Walkable(mem, dst, src, off + len) && 0 < len
    ensures dst in r.mem
    decreases |mem[src]| - off, 0
  {
    var c := ChunkOutcome(env, at, dst, src, mem[src], mem[dst], cb, off, len);
    var mem1 := ChunkEffect(mem, dst, src, cb, off, len, c.status);
    if c.status != Done(true) then Final(c.status, c.events, mem1)
    else
      var g := LoopFrom(env, at + 2, mem1, dst, src, cb, off + len);
      Final(g.status, c.events + g.events, g.mem)
  }

  /** One pass of the loop, in the terms the loop of img_process tracks. */
  lemma LoopFromNext(env: Env, at: nat, mem: map<AreaId, seq<byte>>, dst: AreaId, src: AreaId,
                     cb: Callback, off: nat, len: nat, c: Outcome, mem1: map<AreaId, seq<byte>>)
    requires Walkable(mem, dst, src, off) && off < |mem[src]|
    requires len == ChunkLen(|mem[src]| - off)
    requires c == ChunkOutcome(env, at, dst, src, mem[src], mem[dst], cb, off, len)
    requires mem1 == ChunkEffect(mem, dst, src, cb, off, len, c.status)
    ensures c.status != Done(true) ==> Resumes(LoopFrom(env, at, mem, dst, src, cb, off), c.events, Final(c.status, [], mem1))
    ensures c.status == Done(true) ==>
      Resumes(LoopFrom(env, at, mem, dst, src, cb, off), c.events, LoopFrom(env, at + |c.events|, mem1, dst, src, cb, off + len))
  {
    assert LoopFrom(env, at, mem, dst, src, cb, off) == Pass(env, at, mem, dst, src, cb, off, len);
    if c.status == Done(true) {
      assert |c.events| == 2;
    }
  }

  lemma AppendAssoc(a: seq<Event>, b: seq<Event>, c: seq<Event>)
    ensures (a + b) + c == a + (b + c)
  {
  }

  /**
   * The part of img_process before the chunk walk, first call at log position
   * `base`: open the destination, open the source, check that the sizes are
   * equal and, for a copy, erase the whole destination. Done(true) when the
   * walk may start.
   */
  function Header(env: Env, base: nat, dst: AreaId, src: AreaId, eraseDst: bool): Outcome {
    if env.Fails(base, Open(dst)) then Outcome(Fatal, [Open(dst)])
    else if env.Fails(base + 1, Open(src)) then Outcome(Fatal, [Open(dst), Open(src)])
    else if env.layout[dst] != env.layout[src] then Outcome(Fatal, [Open(dst), Open(src)])
    else if !eraseDst then Outcome(Done(true), [Open(dst), Open(src)])
    else if env.Fails(base + 2, Erase(dst, 0, env.layout[dst])) then
      Outcome(Fatal, [Open(dst), Open(src), Erase(dst, 0, env.layout[dst])])
    else Outcome(Done(true), [Open(dst), Open(src), Erase(dst, 0, env.layout[dst])])
  }

  /** The flash contents when the chunk walk starts: with the destination erased if asked. */
  function StartContents(mem: map<AreaId, seq<byte>>, dst: AreaId, eraseDst: bool): map<AreaId, seq<byte>>
    requires dst in mem
  {
    if eraseDst then mem[dst := Erased(|mem[dst]|)] else mem
  }

  /**
   * img_process(dst, src, eraseDst, cb) started with flash contents `mem` and
   * its first call at log position `base`.
   */
  function ProcessOutcome(env: Env, mem: map<AreaId, seq<byte>>, base: nat, dst: AreaId, src: AreaId,
                          eraseDst: bool, cb: Callback): Final
    requires env.Holds(mem)
  {
    var h := Header(env, base, dst, src, eraseDst);
    if h.status != Done(true) then Final(h.status, h.events, mem)
    else
      var l := LoopFrom(env, base + |h.events|, StartContents(mem, dst, eraseDst), dst, src, cb, 0);
      if l.status == Fatal then Final(Fatal, h.events + l.events, l.mem)
      else Final(l.status, h.events + l.events + [Close(src), Close(dst)], l.mem)
  }

  // ---------------------------------------------------------------------
  // Properties of the loop

  /**
   * Fail-fast for one pass: the source read is made, the callback's call only
   * if the read succeeded, and the pass is Fatal exactly when its last call
   * failed.
   */
  lemma ChunkFailFast(env: Env, at: nat, dst: AreaId, src: AreaId, srcData: seq<byte>, dstData: seq<byte>,
                      cb: Callback, off: nat, len: nat)
    requires |srcData| == |dstData|
    ensures var c := ChunkOutcome(env, at, dst, src, srcData, dstData, cb, off, len);
      && c.events[0] == Read(src, off, len)
      && (c.status == Fatal <==> env.Fails(at + |c.events| - 1, c.events[|c.events| - 1]))
      && (|c.events| == 1 || (|c.events| == 2 && !env.Fails(at, c.events[0])))
      && (c.status != Fatal ==> c.events == ChunkEvents(dst, src, cb, off, len))
  {
  }

  /** No call of `evs`, the first made at log position `at`, failed, except perhaps the last. */
  predicate AllButLastSucceed(env: Env, at: nat, evs: seq<Event>) {
    forall k :: 0 <= k < |evs| - 1 ==> !env.Fails(at + k, evs[k])
  }

  /** Fail-fast, first half: no call of the loop but the last failed. */
  lemma {:induction false} LoopCallsSucceed(env: Env, at: nat, mem: map<AreaId, seq<byte>>,
                                            dst: AreaId, src: AreaId, cb: Callback, off: nat)
    requires Walkable(mem, dst, src, off)
    ensures AllButLastSucceed(env, at, LoopFrom(env, at, mem, dst, src, cb, off).events)
    decreases |mem[src]| - off
  {
    if off < |mem[src]| {
      var len := ChunkLen(|mem[src]| - off);
      var c := ChunkOutcome(env, at, dst, src, mem[src], mem[dst], cb, off, len);
      var mem1 := ChunkEffect(mem, dst, src, cb, off, len, c.status);
      LoopFromNext(env, at, mem, dst, src, cb, off, len, c, mem1);
      ChunkFailFast(env, at, dst, src, mem[src], mem[dst], cb, off, len);
      if c.status == Done(true) {
        var f := LoopFrom(env, at, mem, dst, src, cb, off);
        var g := LoopFrom(env, at + 2, mem1, dst, src, cb, off + len);
        LoopCallsSucceed(env, at + 2, mem1, dst, src, cb, off + len);
        assert |c.events| == 2 && f.events == c.events + g.events;
        forall k | 0 <= k < |f.events| - 1
          ensures !env.Fails(at + k, f.events[k])
        {
          if k >= 2 {
            assert f.events[k] == g.events[k - 2];
          } else {
            assert f.events[k] == c.events[k];
          }
        }
      } else {
        assert c.events + [] == c.events;
      }
    }
  }

  /** Fail-fast, second half: the loop is Fatal exactly when it made a call and its last call failed. */
  lemma {:induction false} LoopFatalIffLastFails(env: Env, at: nat, mem: map<AreaId, seq<byte>>,
                                                 dst: AreaId, src: AreaId, cb: Callback, off: nat)
    requires Walkable(mem, dst, src, off)
    ensures var f := LoopFrom(env, at, mem, dst, src, cb, off);
      f.status == Fatal <==> 0 < |f.events| && env.Fails(at + |f.events| - 1, f.events[|f.events| - 1])
    decreases |mem[src]| - off
  {
    if off < |mem[src]| {
      var len := ChunkLen(|mem[src]| - off);
      var c := ChunkOutcome(env, at, dst, src, mem[src], mem[dst], cb, off, len);
      var mem1 := ChunkEffect(mem, dst, src, cb, off, len, c.status);
      LoopFromNext(env, at, mem, dst, src, cb, off, len, c, mem1);
      ChunkFailFast(env, at, dst, src, mem[src], mem[dst], cb, off, len);
      if c.status == Done(true) {
        var f := LoopFrom(env, at, mem, dst, src, cb, off);
        var g := LoopFrom(env, at + 2, mem1, dst, src, cb, off + len);
        LoopFatalIffLastFails(env, at + 2, mem1, dst, src, cb, off + len);
        if 0 < |g.events| {
          assert f.events[|f.events| - 1] == g.events[|g.events| - 1];
        } else {
          assert f.events == c.events;
        }
      }
    }
  }

  /** The calls of the loop follow the chunk tiling: they are a prefix of the chunks' calls. */
  lemma {:induction false} LoopFollowsChunks(env: Env, at: nat, mem: map<AreaId, seq<byte>>,
                                             dst: AreaId, src: AreaId, cb: Callback, off: nat)
    requires Walkable(mem, dst, src, off)
    ensures LoopFrom(env, at, mem, dst, src, cb, off).events <= ChunkTrace(dst, src, cb, Chunks(off, |mem[src]|))
    decreases |mem[src]| - off
  {
    var size := |mem[src]|;
    if off < size {
      var len := ChunkLen(size - off);
      var c := ChunkOutcome(env, at, dst, src, mem[src], mem[dst], cb, off, len);
      var mem1 := ChunkEffect(mem, dst, src, cb, off, len, c.status);
      LoopFromNext(env, at, mem, dst, src, cb, off, len, c, mem1);
      var ev := ChunkEvents(dst, src, cb, off, len);
      var rest := ChunkTrace(dst, src, cb, Chunks(off + len, size));
      TraceStep(dst, src, cb, off, size);
      if c.status == Done(true) {
        LoopFollowsChunks(env, at + 2, mem1, dst, src, cb, off + len);
        PrefixConcat(ev, LoopFrom(env, at + 2, mem1, dst, src, cb, off + len).events, rest);
      } else {
        ChunkEventsPrefix(env, at, dst, src, mem[src], mem[dst], cb, off, len);
        assert c.events <= ev + rest;
      }
    }
  }

  /** A loop that accepted every chunk made exactly the two calls of every chunk, in order. */
  lemma {:induction false} LoopTraceComplete(env: Env, at: nat, mem: map<AreaId, seq<byte>>,
                                             dst: AreaId, src: AreaId, cb: Callback, off: nat)
    requires Walkable(mem, dst, src, off)
    ensures var f := LoopFrom(env, at, mem, dst, src, cb, off);
      f.status == Done(true) ==> f.events == ChunkTrace(dst, src, cb, Chunks(off, |mem[src]|))
    decreases |mem[src]| - off
  {
    var size := |mem[src]|;
    if off < size {
      var len := ChunkLen(size - off);
      var c := ChunkOutcome(env, at, dst, src, mem[src], mem[dst], cb, off, len);
      var mem1 := ChunkEffect(mem, dst, src, cb, off, len, c.status);
      LoopFromNext(env, at, mem, dst, src, cb, off, len, c, mem1);
      if c.status == Done(true) {
        TraceStep(dst, src, cb, off, size);
        LoopTraceComplete(env, at + 2, mem1, dst, src, cb, off + len);
      }
    }
  }

  /** The trace of the chunks from `off`: the first chunk's calls, then the rest. */
  lemma TraceStep(dst: AreaId, src: AreaId, cb: Callback, off: nat, size: nat)
    requires off < size
    ensures var len := ChunkLen(size - off);
      ChunkTrace(dst, src, cb, Chunks(off, size)) ==
        ChunkEvents(dst, src, cb, off, len) + ChunkTrace(dst, src, cb, Chunks(off + len, size))
  {
    var cs := Chunks(off, size);
    assert cs[0] == (off, ChunkLen(size - off)) && cs[1..] == Chunks(off + ChunkLen(size - off), size);
  }

  /** One pass makes a prefix of the chunk's two calls, followed here by anything. */
  lemma ChunkEventsPrefix(env: Env, at: nat, dst: AreaId, src: AreaId, srcData: seq<byte>, dstData: seq<byte>,
                          cb: Callback, off: nat, len: nat)
    requires |srcData| == |dstData|
    ensures forall rest: seq<Event> {:trigger ChunkEvents(dst, src, cb, off, len) + rest} ::
      ChunkOutcome(env, at, dst, src, srcData, dstData, cb, off, len).events <= ChunkEvents(dst, src, cb, off, len) + rest
  {
    var ev := ChunkEvents(dst, src, cb, off, len);
    forall rest: seq<Event>
      ensures ChunkOutcome(env, at, dst, src, srcData, dstData, cb, off, len).events <= ev + rest
    {
      assert (ev + rest)[..1] == [Read(src, off, len)];
      assert (ev + rest)[..2] == ev;
    }
  }

  lemma PrefixConcat(d: seq<Event>, a: seq<Event>, b: seq<Event>)
    requires a <= b
    ensures d + a <= d + b
  {
    assert (d + b)[..|d + a|] == d + b[..|a|];
  }

  /** cb_img_write never reports a mismatch, so a write loop never stops early. */
  lemma {:induction false} WriteLoopNeverMismatches(env: Env, at: nat, mem: map<AreaId, seq<byte>>,
                                                    dst: AreaId, src: AreaId, off: nat)
    requires Walkable(mem, dst, src, off)
    ensures LoopFrom(env, at, mem, dst, src, WriteChunk, off).status != Done(false)
    decreases |mem[src]| - off
  {
    if off < |mem[src]| {
      var len := ChunkLen(|mem[src]| - off);
      var c := ChunkOutcome(env, at, dst, src, mem[src], mem[dst], WriteChunk, off, len);
      var mem1 := ChunkEffect(mem, dst, src, WriteChunk, off, len, c.status);
      LoopFromNext(env, at, mem, dst, src, WriteChunk, off, len, c, mem1);
      if c.status == Done(true) {
        WriteLoopNeverMismatches(env, at + 2, mem1, dst, src, off + len);
      }
    }
  }

  /** `m1` has the areas of `m`, each of the same size, and differs from it at most in `dst`. */
  predicate OnlyDstChanged(m: map<AreaId, seq<byte>>, m1: map<AreaId, seq<byte>>, dst: AreaId) {
    && m1.Keys == m.Keys
    && forall a :: a in m ==> |m1[a]| == |m[a]| && (a != dst ==> m1[a] == m[a])
  }

  /** Changing one area without resizing it keeps the flash contents consistent with the layout. */
  lemma HoldsAfterDstChange(env: Env, m: map<AreaId, seq<byte>>, m1: map<AreaId, seq<byte>>, dst: AreaId)
    requires env.Holds(m) && OnlyDstChanged(m, m1, dst)
    ensures env.Holds(m1)
  {
  }

  /** The loop writes nothing but the destination, resizes nothing, and no area disappears. */
  lemma {:induction false} LoopOnlyTouchesDst(env: Env, at: nat, mem: map<AreaId, seq<byte>>,
                                              dst: AreaId, src: AreaId, cb: Callback, off: nat)
    requires Walkable(mem, dst, src, off)
    ensures OnlyDstChanged(mem, LoopFrom(env, at, mem, dst, src, cb, off).mem, dst)
    decreases |mem[src]| - off
  {
    if off < |mem[src]| {
      var len := ChunkLen(|mem[src]| - off);
      var c := ChunkOutcome(env, at, dst, src, mem[src], mem[dst], cb, off, len);
      var mem1 := ChunkEffect(mem, dst, src, cb, off, len, c.status);
      LoopFromNext(env, at, mem, dst, src, cb, off, len, c, mem1);
      if c.status == Done(true) {
        LoopOnlyTouchesDst(env, at + 2, mem1, dst, src, cb, off + len);
      }
    }
  }

  /** A compare loop, and a write loop whose destination is its source, leave the flash as it was. */
  lemma {:induction false} LoopKeepsContents(env: Env, at: nat, mem: map<AreaId, seq<byte>>,
                                             dst: AreaId, src: AreaId, cb: Callback, off: nat)
    requires Walkable(mem, dst, src, off)
    requires cb == CompareChunk || dst == src
    ensures LoopFrom(env, at, mem, dst, src, cb, off).mem == mem
    decreases |mem[src]| - off
  {
    if off < |mem[src]| {
      var len := ChunkLen(|mem[src]| - off);
      var c := ChunkOutcome(env, at, dst, src, mem[src], mem[dst], cb, off, len);
      var mem1 := ChunkEffect(mem, dst, src, cb, off, len, c.status);
      LoopFromNext(env, at, mem, dst, src, cb, off, len, c, mem1);
      if cb == WriteChunk && c.status == Done(true) {
        WriteBackUnchanged(mem[src], off, len);
      }
      assert mem1 == mem;
      if c.status == Done(true) {
        LoopKeepsContents(env, at + 2, mem, dst, src, cb, off + len);
      }
    }
  }

  /** Two equal-length sequences agree from `off` on iff they agree on [off, off + len) and from off + len on. */
  lemma SuffixSplit(s: seq<byte>, d: seq<byte>, off: nat, len: nat)
    requires |s| == |d| && off + len <= |s|
    ensures s[off..] == d[off..] <==> s[off..off + len] == d[off..off + len] && s[off + len..] == d[off + len..]
  {
    assert s[off..] == s[off..off + len] + s[off + len..];
    assert d[off..] == d[off..off + len] + d[off + len..];
    if s[off..] == d[off..] {
      assert s[off..off + len] == s[off..][..len] && d[off..off + len] == d[off..][..len];
      assert s[off + len..] == s[off..][len..] && d[off + len..] == d[off..][len..];
    }
  }

  /** A compare loop that is not cut short by a failing read returns true iff the contents agree from `off` on. */
  lemma {:induction false} CompareLoopResult(env: Env, at: nat, mem: map<AreaId, seq<byte>>,
                                             dst: AreaId, src: AreaId, off: nat)
    requires Walkable(mem, dst, src, off)
    ensures var f := LoopFrom(env, at, mem, dst, src, CompareChunk, off);
      f.status.Done? ==> (f.status.success <==> mem[src][off..] == mem[dst][off..])
    decreases |mem[src]| - off
  {
    if off < |mem[src]| {
      var len := ChunkLen(|mem[src]| - off);
      var c := ChunkOutcome(env, at, dst, src, mem[src], mem[dst], CompareChunk, off, len);
      var mem1 := ChunkEffect(mem, dst, src, CompareChunk, off, len, c.status);
      LoopFromNext(env, at, mem, dst, src, CompareChunk, off, len, c, mem1);
      SuffixSplit(mem[src], mem[dst], off, len);
      if c.status == Done(true) {
        CompareLoopResult(env, at + 2, mem, dst, src, off + len);
      }
    }
  }

  /**
   * A compare loop that returns false stops at the first differing chunk: it
   * made the two reads of every chunk up to that one and none after it.
   */
  lemma {:induction false} CompareLoopStopsAtFirstDifference(env: Env, at: nat, mem: map<AreaId, seq<byte>>,
                                                             dst: AreaId, src: AreaId, off: nat)
    requires Walkable(mem, dst, src, off)
    ensures var f := LoopFrom(env, at, mem, dst, src, CompareChunk, off);
      var cs := Chunks(off, |mem[src]|);
      var n := |f.events| / 2;
      f.status == Done(false) ==>
        && |f.events| == 2 * n
        && 0 < n <= |cs|
        && Differs(mem[src], mem[dst], cs[n - 1])
        && (forall k :: 0 <= k < n - 1 ==> !Differs(mem[src], mem[dst], cs[k]))
    decreases |mem[src]| - off
  {
    if off < |mem[src]| {
      var len := ChunkLen(|mem[src]| - off);
      var c := ChunkOutcome(env, at, dst, src, mem[src], mem[dst], CompareChunk, off, len);
      var mem1 := ChunkEffect(mem, dst, src, CompareChunk, off, len, c.status);
      LoopFromNext(env, at, mem, dst, src, CompareChunk, off, len, c, mem1);
      var cs := Chunks(off, |mem[src]|);
      var rest := Chunks(off + len, |mem[src]|);
      assert cs == [(off, len)] + rest;
      if c.status == Done(true) {
        CompareLoopStopsAtFirstDifference(env, at + 2, mem, dst, src, off + len);
        var f := LoopFrom(env, at, mem, dst, src, CompareChunk, off);
        var g := LoopFrom(env, at + 2, mem, dst, src, CompareChunk, off + len);
        if f.status == Done(false) {
          assert |f.events| / 2 == |g.events| / 2 + 1;
          forall k | 0 <= k < |f.events| / 2 - 1
            ensures !Differs(mem[src], mem[dst], cs[k])
          {
            if k > 0 {
              assert cs[k] == rest[k - 1];
            }
          }
        }
      }
    }
  }

  // ---------------------------------------------------------------------
  // Contents while a copy is in progress

  /** The destination after the chunks before `k` have been programmed with the source's bytes. */
  function Overlay(d: seq<byte>, s: seq<byte>, k: nat): (t: seq<byte>)
    requires |d| == |s| && k <= |d|
    ensures |t| == |d|
  {
    seq(|d|, i requires 0 <= i < |d| => if i < k then d[i] & s[i] else d[i])
  }

  /** Programming the chunk at `k` extends the overlay by that chunk. */
  lemma OverlayStep(d: seq<byte>, s: seq<byte>, k: nat, len: nat)
    requires |d| == |s| && k + len <= |d|
    ensures WriteAt(Overlay(d, s, k), k, s[k..k + len]) == Overlay(d, s, k + len)
  {
    var a := WriteAt(Overlay(d, s, k), k, s[k..k + len]);
    var b := Overlay(d, s, k + len);
    forall i | 0 <= i < |d|
      ensures a[i] == b[i]
    {
      if k <= i < k + len {
        assert s[k..k + len][i - k] == s[i];
      }
    }
  }

  lemma OverlayStart(d: seq<byte>, s: seq<byte>)
    requires |d| == |s|
    ensures Overlay(d, s, 0) == d
  {
    assert forall i :: 0 <= i < |d| ==> Overlay(d, s, 0)[i] == d[i];
  }

  lemma OverlayDone(d: seq<byte>, s: seq<byte>)
    requires |d| == |s|
    ensures Overlay(d, s, |d|) == Program(d, s)
  {
    assert forall i :: 0 <= i < |d| ==> Overlay(d, s, |d|)[i] == Program(d, s)[i];
  }

  /** Programming an area's own bytes back onto it changes nothing (x & x == x). */
  lemma WriteBackUnchanged(s: seq<byte>, off: nat, len: nat)
    requires off + len <= |s|
    ensures WriteAt(s, off, s[off..off + len]) == s
  {
    var t := WriteAt(s, off, s[off..off + len]);
    forall i | 0 <= i < |s|
      ensures t[i] == s[i]
    {
      if off <= i < off + len {
        assert s[off..off + len][i - off] == s[i];
      }
    }
  }

  /**
   * A write loop from `off` to the end, over a destination whose chunks
   * before `off` are already programmed, leaves every source byte programmed
   * over the destination's old content.
   */
  lemma {:induction false} WriteLoopResult(env: Env, at: nat, m: map<AreaId, seq<byte>>,
                                           dst: AreaId, src: AreaId, off: nat)
    requires Walkable(m, dst, src, off) && dst != src
    ensures var f := LoopFrom(env, at, m[dst := Overlay(m[dst], m[src], off)], dst, src, WriteChunk, off);
      f.status == Done(true) ==> f.mem == m[dst := Program(m[dst], m[src])]
    decreases |m[src]| - off
  {
    var mem := m[dst := Overlay(m[dst], m[src], off)];
    if off == |m[src]| {
      OverlayDone(m[dst], m[src]);
    } else {
      var len := ChunkLen(|m[src]| - off);
      var c := ChunkOutcome(env, at, dst, src, mem[src], mem[dst], WriteChunk, off, len);
      var mem1 := ChunkEffect(mem, dst, src, WriteChunk, off, len, c.status);
      LoopFromNext(env, at, mem, dst, src, WriteChunk, off, len, c, mem1);
      if c.status == Done(true) {
        assert mem[src] == m[src];
        OverlayStep(m[dst], m[src], off, len);
        assert mem1 == m[dst := Overlay(m[dst], m[src], off + len)];
        WriteLoopResult(env, at + 2, m, dst, src, off + len);
      }
    }
  }

  /** Every call of a chunk trace is a read, or (for cb_img_write) a write to the destination. */
  lemma {:induction false} ChunkTraceCalls(dst: AreaId, src: AreaId, cb: Callback, cs: seq<(nat, nat)>)
    ensures forall k :: 0 <= k < |ChunkTrace(dst, src, cb, cs)| ==>
      (ChunkTrace(dst, src, cb, cs)[k].Read?
       || (cb == WriteChunk && ChunkTrace(dst, src, cb, cs)[k].Write? && ChunkTrace(dst, src, cb, cs)[k].area == dst))
  {
    if cs != [] {
      ChunkTraceCalls(dst, src, cb, cs[1..]);
      var t := ChunkTrace(dst, src, cb, cs);
      var r := ChunkTrace(dst, src, cb, cs[1..]);
      assert t == ChunkEvents(dst, src, cb, cs[0].0, cs[0].1) + r;
      forall k | 0 <= k < |t|
        ensures t[k].Read? || (cb == WriteChunk && t[k].Write? && t[k].area == dst)
      {
        var ev := ChunkEvents(dst, src, cb, cs[0].0, cs[0].1);
        assert |ev| == 2;
        if k >= 2 {
          assert t[k] == r[k - 2];
          assert 0 <= k - 2 < |r|;
          assert r[k-2].Read? || (cb == WriteChunk && r[k-2].Write? && r[k-2].area == dst);
        } else if k == 0 {
          assert t[k] == ev[0] == Read(src, cs[0].0, cs[0].1);
          assert t[k].Read?;
        } else if cb == WriteChunk {
          assert t[k] == ev[1] == Write(dst, cs[0].0, cs[0].1);
          assert t[k].Write? && t[k].area == dst;
        } else {
          assert t[k] == ev[1] == Read(dst, cs[0].0, cs[0].1);
          assert t[k].Read?;
        }
      }
    }
  }

  // ---------------------------------------------------------------------
  // Properties of img_process

  /** With areas of different sizes, img_process fails right after the two opens: nothing is erased, read or written. */
  lemma SizeMismatchFailsBeforeTransfer(env: Env, mem: map<AreaId, seq<byte>>, base: nat, dst: AreaId, src: AreaId,
                                        eraseDst: bool, cb: Callback)
    requires env.Holds(mem)
    requires dst in env.layout && src in env.layout && env.layout[dst] != env.layout[src]
    ensures var o := ProcessOutcome(env, mem, base, dst, src, eraseDst, cb);
      && o.status == Fatal
      && o.mem == mem
      && (forall k :: 0 <= k < |o.events| ==> o.events[k].Open?)
  {
  }

  /** The calls before the walk: at most two opens and the erase; fail-fast; Fatal exactly on a failed call or a size mismatch. */
  lemma HeaderFacts(env: Env, base: nat, dst: AreaId, src: AreaId, eraseDst: bool)
    ensures var h := Header(env, base, dst, src, eraseDst);
      && 0 < |h.events| <= 3
      && h.events[0] == Open(dst)
      && (|h.events| > 1 ==> h.events[1] == Open(src))
      && (|h.events| > 2 ==> eraseDst && h.events[2] == Erase(dst, 0, env.layout[dst]))
      && (forall k :: 0 <= k < |h.events| - 1 ==> !env.Fails(base + k, h.events[k]))
      && h.status != Done(false)
      && (h.status == Fatal <==>
            env.Fails(base + |h.events| - 1, h.events[|h.events| - 1])
            || (h.events == [Open(dst), Open(src)] && env.layout[dst] != env.layout[src]))
      && (h.status == Done(true) ==>
            && dst in env.layout && src in env.layout && env.layout[dst] == env.layout[src]
            && |h.events| == (if eraseDst then 3 else 2))
  {
  }

  /**
   * Fail-fast for img_process: every call but the last succeeded, and the
   * result is Fatal exactly when the last call failed or the sizes differ.
   */
  lemma ProcessFailFast(env: Env, mem: map<AreaId, seq<byte>>, base: nat, dst: AreaId, src: AreaId,
                        eraseDst: bool, cb: Callback)
    requires env.Holds(mem)
    ensures var o := ProcessOutcome(env, mem, base, dst, src, eraseDst, cb);
      && o.events != []
      && (forall k :: 0 <= k < |o.events| - 1 ==> !env.Fails(base + k, o.events[k]))
      && (o.status == Fatal <==>
            env.Fails(base + |o.events| - 1, o.events[|o.events| - 1])
            || (o.events == [Open(dst), Open(src)] && env.layout[dst] != env.layout[src]))
  {
    var h := Header(env, base, dst, src, eraseDst);
    HeaderFacts(env, base, dst, src, eraseDst);
    if h.status == Done(true) {
      var o := ProcessOutcome(env, mem, base, dst, src, eraseDst, cb);
      var m := StartContents(mem, dst, eraseDst);
      var at := base + |h.events|;
      var l := LoopFrom(env, at, m, dst, src, cb, 0);
      LoopCallsSucceed(env, at, m, dst, src, cb, 0);
      LoopFatalIffLastFails(env, at, m, dst, src, cb, 0);
      assert !env.Fails(at - 1, h.events[|h.events| - 1]);
      forall k | 0 <= k < |o.events| - 1
        ensures !env.Fails(base + k, o.events[k])
      {
        if k < |h.events| {
          assert o.events[k] == h.events[k];
        } else if k < |h.events| + |l.events| {
          assert o.events[k] == l.events[k - |h.events|];
        }
      }
      if l.status == Fatal {
        assert o.events[|o.events| - 1] == l.events[|l.events| - 1];
      } else {
        assert o.events[|o.events| - 1] == Close(dst);
        assert |o.events| > 2;
      }
    }
  }

  /** The calls of the loop inside img_process come after the header's calls, and the closes come last. */
  lemma ProcessLoopCalls(env: Env, mem: map<AreaId, seq<byte>>, base: nat, dst: AreaId, src: AreaId,
                         eraseDst: bool, cb: Callback)
    requires env.Holds(mem)
    ensures var h := Header(env, base, dst, src, eraseDst);
      var o := ProcessOutcome(env, mem, base, dst, src, eraseDst, cb);
      h.status == Done(true) ==>
        && |h.events| <= |o.events| && o.events[..|h.events|] == h.events
        && (forall k :: |h.events| <= k < |o.events| && !o.events[k].Close? ==>
              o.events[k].Read? || (cb == WriteChunk && o.events[k].Write? && o.events[k].area == dst))
        && (forall k :: |h.events| <= k < |o.events| && o.events[k].Close? ==>
              o.status.Done? && |o.events| - 2 <= k)
  {
    var h := Header(env, base, dst, src, eraseDst);
    if h.status == Done(true) {
      var o := ProcessOutcome(env, mem, base, dst, src, eraseDst, cb);
      var m := StartContents(mem, dst, eraseDst);
      HeaderFacts(env, base, dst, src, eraseDst);
      var l := LoopFrom(env, base + |h.events|, m, dst, src, cb, 0);
      var t := ChunkTrace(dst, src, cb, Chunks(0, |m[src]|));
      LoopFollowsChunks(env, base + |h.events|, m, dst, src, cb, 0);
      ChunkTraceCalls(dst, src, cb, Chunks(0, |m[src]|));
      assert o.events[..|h.events|] == h.events;
      forall k | |h.events| <= k < |h.events| + |l.events|
        ensures o.events[k] == t[k - |h.events|]
      {
        assert o.events[k] == l.events[k - |h.events|];
      }
    }
  }

  /** A copy erases the whole destination before its first write; a compare changes nothing. */
  lemma ProcessErasesBeforeWriting(env: Env, mem: map<AreaId, seq<byte>>, base: nat, dst: AreaId, src: AreaId,
                                   eraseDst: bool, cb: Callback)
    requires env.Holds(mem)
    ensures var o := ProcessOutcome(env, mem, base, dst, src, eraseDst, cb);
      && (forall k :: 0 <= k < |o.events| && o.events[k].Write? ==>
            cb == WriteChunk && o.events[k].area == dst
            && (eraseDst ==> 2 < k && o.events[2] == Erase(dst, 0, env.layout[dst])))
      && (forall k :: 0 <= k < |o.events| && o.events[k].Erase? ==>
            eraseDst && k == 2 && o.events[k] == Erase(dst, 0, env.layout[dst]))
      && (cb == CompareChunk && !eraseDst ==> forall k :: 0 <= k < |o.events| ==> !Destructive(o.events[k]))
  {
    var h := Header(env, base, dst, src, eraseDst);
    HeaderFacts(env, base, dst, src, eraseDst);
    ProcessLoopCalls(env, mem, base, dst, src, eraseDst, cb);
    var o := ProcessOutcome(env, mem, base, dst, src, eraseDst, cb);
    if h.status == Done(true) {
      forall k | 0 <= k < |h.events|
        ensures o.events[k] == h.events[k]
      {
        assert o.events[..|h.events|][k] == o.events[k];
      }
    }
  }

  /** On every normal return both areas are closed, the source first; no area is closed earlier. */
  lemma ProcessClosesOnReturn(env: Env, mem: map<AreaId, seq<byte>>, base: nat, dst: AreaId, src: AreaId,
                              eraseDst: bool, cb: Callback)
    requires env.Holds(mem)
    ensures var o := ProcessOutcome(env, mem, base, dst, src, eraseDst, cb);
      && (o.status.Done? ==> |o.events| >= 4 && o.events[|o.events| - 2..] == [Close(src), Close(dst)])
      && (forall k :: 0 <= k < |o.events| && o.events[k].Close? ==> o.status.Done? && |o.events| - 2 <= k)
  {
    var h := Header(env, base, dst, src, eraseDst);
    HeaderFacts(env, base, dst, src, eraseDst);
    ProcessLoopCalls(env, mem, base, dst, src, eraseDst, cb);
    var o := ProcessOutcome(env, mem, base, dst, src, eraseDst, cb);
    if h.status == Done(true) {
      forall k | 0 <= k < |h.events|
        ensures o.events[k] == h.events[k]
      {
        assert o.events[..|h.events|][k] == o.events[k];
      }
    }
  }

  /** img_process writes no area but the destination, and resizes nothing. */
  lemma ProcessOnlyTouchesDst(env: Env, mem: map<AreaId, seq<byte>>, base: nat, dst: AreaId, src: AreaId,
                              eraseDst: bool, cb: Callback)
    requires env.Holds(mem)
    ensures OnlyDstChanged(mem, ProcessOutcome(env, mem, base, dst, src, eraseDst, cb).mem, dst)
  {
    var h := Header(env, base, dst, src, eraseDst);
    if h.status == Done(true) {
      HeaderFacts(env, base, dst, src, eraseDst);
      var m := StartContents(mem, dst, eraseDst);
      LoopOnlyTouchesDst(env, base + |h.events|, m, dst, src, cb, 0);
    }
  }

  /** btldr_img_op_copy cannot return a mismatch: it is Fatal or it returns true. */
  lemma CopyNeverStopsEarly(env: Env, mem: map<AreaId, seq<byte>>, base: nat, dst: AreaId, src: AreaId)
    requires env.Holds(mem)
    ensures ProcessOutcome(env, mem, base, dst, src, true, WriteChunk).status != Done(false)
  {
    var h := Header(env, base, dst, src, true);
    HeaderFacts(env, base, dst, src, true);
    if h.status == Done(true) {
      var m := StartContents(mem, dst, true);
      WriteLoopNeverMismatches(env, base + 3, m, dst, src, 0);
    }
  }

  /** A btldr_img_op_copy that returns leaves the destination holding exactly the source's bytes. */
  lemma CopyResult(env: Env, mem: map<AreaId, seq<byte>>, base: nat, dst: AreaId, src: AreaId)
    requires env.Holds(mem) && dst != src
    ensures var o := ProcessOutcome(env, mem, base, dst, src, true, WriteChunk);
      o.status.Done? ==> o.mem == mem[dst := mem[src]]
  {
    var h := Header(env, base, dst, src, true);
    HeaderFacts(env, base, dst, src, true);
    if h.status == Done(true) {
      var m := StartContents(mem, dst, true);
      assert |mem[dst]| == |mem[src]|;
      OverlayStart(m[dst], m[src]);
      assert m[dst := Overlay(m[dst], m[src], 0)] == m;
      WriteLoopResult(env, base + 3, m, dst, src, 0);
      WriteLoopNeverMismatches(env, base + 3, m, dst, src, 0);
      ProgramErased(mem[src]);
      assert m[dst] == Erased(|mem[src]|) && m[src] == mem[src];
      assert m[dst := Program(m[dst], m[src])] == mem[dst := mem[src]];
    }
  }

  /** btldr_img_op_cmp writes no flash. */
  lemma CompareKeepsFlash(env: Env, mem: map<AreaId, seq<byte>>, base: nat, dst: AreaId, src: AreaId)
    requires env.Holds(mem)
    ensures ProcessOutcome(env, mem, base, dst, src, false, CompareChunk).mem == mem
  {
    var h := Header(env, base, dst, src, false);
    HeaderFacts(env, base, dst, src, false);
    if h.status == Done(true) {
      LoopKeepsContents(env, base + 2, mem, dst, src, CompareChunk, 0);
    }
  }

  /** btldr_img_op_cmp, when no call fails, returns true iff the two areas hold the same bytes. */
  lemma CompareIffEqual(env: Env, mem: map<AreaId, seq<byte>>, base: nat, dst: AreaId, src: AreaId)
    requires env.Holds(mem)
    ensures var o := ProcessOutcome(env, mem, base, dst, src, false, CompareChunk);
      o.status.Done? ==> (o.status.success <==> mem[dst] == mem[src])
  {
    var h := Header(env, base, dst, src, false);
    HeaderFacts(env, base, dst, src, false);
    if h.status == Done(true) {
      CompareLoopResult(env, base + 2, mem, dst, src, 0);
      assert mem[src][0..] == mem[src] && mem[dst][0..] == mem[dst];
    }
  }

  // ---------------------------------------------------------------------
  // The engine

  /** The two static chunk buffers of btldr_img_op.c. */
  class Engine {
    /** tmp_buf1 (img_process): the source chunk. */
    const tmpBuf1: array<byte>
    /** tmp_buf2 (cb_img_cmp): the destination chunk. */
    const tmpBuf2: array<byte>

    ghost predicate Valid() {
      tmpBuf1.Length == TMP_BUF_SIZE && tmpBuf2.Length == TMP_BUF_SIZE && tmpBuf1 != tmpBuf2
    }

    constructor ()
      ensures Valid() && fresh(tmpBuf1) && fresh(tmpBuf2)
    {
      tmpBuf1 := new byte[TMP_BUF_SIZE];
      tmpBuf2 := new byte[TMP_BUF_SIZE];
    }

    /** cb_img_write: program the chunk at the same offset; a failed write is fatal. */
    method CbImgWrite(board: Board, dst: AreaId, offset: nat, chunk: seq<byte>) returns (st: Status)
      requires board.Valid()
      modifies board`log, board`mem
      ensures board.Valid()
      ensures board.log == old(board.log) + [Write(dst, offset, |chunk|)]
      ensures st == if board.env.Fails(|old(board.log)|, Write(dst, offset, |chunk|)) then Fatal else Done(true)
      ensures board.mem == if st.Done? then old(board.mem)[dst := WriteAt(old(board.mem)[dst], offset, chunk)]
                           else old(board.mem)
    {
      var ok := board.FlashWrite(dst, offset, chunk);
      if !ok {
        return Fatal;
      }
      return Done(true);
    }

    /** cb_img_cmp: read the destination chunk into tmp_buf2 and memcmp it with the source chunk. */
    method CbImgCmp(board: Board, dst: AreaId, offset: nat, chunk: seq<byte>) returns (st: Status)
      requires Valid() && board.Valid() && |chunk| <= TMP_BUF_SIZE
      modifies board`log, tmpBuf2
      ensures board.log == old(board.log) + [Read(dst, offset, |chunk|)]
      ensures st == if board.env.Fails(|old(board.log)|, Read(dst, offset, |chunk|)) then Fatal
                    else Done(chunk == board.mem[dst][offset..offset + |chunk|])
    {
      var ok := board.FlashRead(dst, offset, tmpBuf2, |chunk|);
      if !ok {
        return Fatal;
      }
      return Done(chunk == tmpBuf2[..|chunk|]);
    }

    /**
     * img_process: open both areas, insist on equal sizes, erase the
     * destination if asked, walk the chunks, then close the source and the
     * destination and return whether every chunk was accepted.
     */
    method ImgProcess(board: Board, dst: AreaId, src: AreaId, eraseDst: bool, cb: Callback) returns (r: Status)
      requires Valid() && board.Valid()
      modifies board`log, board`mem, tmpBuf1, tmpBuf2
      ensures board.Valid()
      ensures var o := ProcessOutcome(board.env, old(board.mem), |old(board.log)|, dst, src, eraseDst, cb);
        r == o.status && board.log == old(board.log) + o.events && board.mem == o.mem
    {
      var size;
      r, size := OpenAreas(board, dst, src, eraseDst);
      if r != Done(true) {
        return;
      }
      ghost var log1 := board.log;
      r := ChunkLoop(board, dst, src, cb, size, LoopFrom(board.env, |board.log|, board.mem, dst, src, cb, 0));
      AppendAssoc(old(board.log), log1[|old(board.log)|..], board.log[|log1|..]);
      if r == Fatal {
        return Fatal;
      }
      board.FlashClose(src);
      board.FlashClose(dst);
    }

    /**
     * The steps of img_process before its loop: open the destination and the
     * source, insist on equal sizes, and erase the destination if asked.
     */
    method OpenAreas(board: Board, dst: AreaId, src: AreaId, eraseDst: bool) returns (st: Status, size: nat)
      requires board.Valid()
      modifies board`log, board`mem
      ensures board.Valid()
      ensures var h := Header(board.env, |old(board.log)|, dst, src, eraseDst);
        st == h.status && board.log == old(board.log) + h.events
      ensures st != Done(true) ==> board.mem == old(board.mem)
      ensures st == Done(true) ==>
        && dst in old(board.mem) && src in old(board.mem)
        && |old(board.mem)[dst]| == |old(board.mem)[src]| == size
        && board.mem == StartContents(old(board.mem), dst, eraseDst)
    {
      var okDst, sizeDst := board.FlashOpen(dst);
      if !okDst {
        return Fatal, 0;
      }
      var okSrc, sizeSrc := board.FlashOpen(src);
      if !okSrc {
        return Fatal, 0;
      }
      if sizeDst != sizeSrc {
        return Fatal, 0;
      }
      if eraseDst {
        var ok := board.FlashErase(dst, 0, sizeDst);
        if !ok {
          return Fatal, 0;
        }
        assert EraseAt(old(board.mem)[dst], 0, sizeDst) == Erased(sizeDst);
      }
      return Done(true), sizeSrc;
    }

    /**
     * One pass of the loop body of img_process: read `len` source bytes at
     * `offset` into tmp_buf1 and hand them to the callback.
     */
    method ChunkStep(board: Board, dst: AreaId, src: AreaId, cb: Callback, offset: nat, len: nat) returns (st: Status)
      requires Valid() && board.Valid()
      requires Walkable(board.mem, dst, src, offset + len) && 0 < len <= TMP_BUF_SIZE
      modifies board`log, board`mem, tmpBuf1, tmpBuf2
      ensures board.Valid()
      ensures var c := ChunkOutcome(board.env, |old(board.log)|, dst, src, old(board.mem)[src], old(board.mem)[dst],
                                    cb, offset, len);
        st == c.status && board.log == old(board.log) + c.events
      ensures board.mem == ChunkEffect(old(board.mem), dst, src, cb, offset, len, st)
    {
      var ok := board.FlashRead(src, offset, tmpBuf1, len);
      if !ok {
        return Fatal;
      }
      if cb == WriteChunk {
        st := CbImgWrite(board, dst, offset, tmpBuf1[..len]);
      } else {
        st := CbImgCmp(board, dst, offset, tmpBuf1[..len]);
      }
    }

    /**
     * ChunkStep seen as one pass of LoopFrom: the loop from `offset` ends as
     * the pass did, or makes the pass's calls and then ends where the loop
     * from the next chunk does.
     */
    method LoopPass(board: Board, dst: AreaId, src: AreaId, cb: Callback, offset: nat, len: nat,
                    ghost done: seq<Event>, ghost final: Final) returns (st: Status, ghost events: seq<Event>)
      requires Valid() && board.Valid()
      requires Walkable(board.mem, dst, src, offset) && offset < |board.mem[src]|
      requires len == ChunkLen(|board.mem[src]| - offset)
      requires Resumes(final, done, LoopFrom(board.env, |board.log|, board.mem, dst, src, cb, offset))
      modifies board`log, board`mem, tmpBuf1, tmpBuf2
      ensures board.Valid() && Walkable(board.mem, dst, src, offset + len) && |board.mem[src]| == |old(board.mem)[src]|
      ensures board.log == old(board.log) + events
      ensures st != Done(true) ==> Resumes(final, done + events, Final(st, [], board.mem))
      ensures st == Done(true) ==>
        Resumes(final, done + events, LoopFrom(board.env, |board.log|, board.mem, dst, src, cb, offset + len))
    {
      ghost var at := |board.log|;
      ghost var mem0 := board.mem;
      ghost var c := ChunkOutcome(board.env, at, dst, src, mem0[src], mem0[dst], cb, offset, len);
      st := ChunkStep(board, dst, src, cb, offset, len);
      LoopFromNext(board.env, at, mem0, dst, src, cb, offset, len, c, board.mem);
      events := c.events;
      if st == Done(true) {
        AppendAssoc(done, events, LoopFrom(board.env, |board.log|, board.mem, dst, src, cb, offset + len).events);
      } else {
        assert events + [] == events;
      }
    }

    /**
     * The invariant of the loop of img_process: `offset` + `remLen` bytes
     * cover the areas, the calls `done` made so far follow the calls `log0`
     * made before the loop, and the whole loop (`final`) is those calls
     * followed by the loop from `offset`.
     */
    ghost predicate Walking(board: Board, dst: AreaId, src: AreaId, cb: Callback, offset: nat, remLen: nat,
                            size: nat, log0: seq<Event>, done: seq<Event>, final: Final)
      reads board
    {
      && board.Valid() && Walkable(board.mem, dst, src, offset) && offset + remLen == size == |board.mem[src]|
      && board.log == log0 + done
      && Resumes(final, done, LoopFrom(board.env, |board.log|, board.mem, dst, src, cb, offset))
    }

    /**
     * The `while (rem_len > 0)` loop of img_process over two open areas of
     * equal size, stopping at the first chunk the callback rejects; `final`
     * is where the loop ends.
     */
    method ChunkLoop(board: Board, dst: AreaId, src: AreaId, cb: Callback, size: nat, ghost final: Final)
      returns (r: Status)
      requires Valid() && board.Valid()
      requires Walkable(board.mem, dst, src, 0) && |board.mem[src]| == size
      requires final == LoopFrom(board.env, |board.log|, board.mem, dst, src, cb, 0)
      modifies board`log, board`mem, tmpBuf1, tmpBuf2
      ensures board.Valid()
      ensures r == final.status && board.log == old(board.log) + final.events && board.mem == final.mem
    {
      ghost var done: seq<Event> := [];
      assert [] + final.events == final.events;
      var isSuccess := true;
      var remLen: nat := size;
      var offset: nat := 0;
      while remLen > 0
        invariant Walking(board, dst, src, cb, offset, remLen, size, old(board.log), done, final)
      {
        var len := if remLen > TMP_BUF_SIZE then TMP_BUF_SIZE else remLen;
        ghost var events;
        var st;
        st, events := LoopPass(board, dst, src, cb, offset, len, done, final);
        AppendAssoc(old(board.log), done, events);
        done := done + events;
        if st == Fatal {
          return Fatal;
        }
        if !st.success {
          isSuccess := false;
          break;
        }
        offset := offset + len;
        remLen := remLen - len;
      }
      assert done + [] == done;
      return Done(isSuccess);
    }

    /** btldr_img_op_copy: erase the destination, then program it chunk by chunk from the source. */
    method Copy(board: Board, dst: AreaId, src: AreaId) returns (r: Status)
      requires Valid() && board.Valid()
      modifies board`log, board`mem, tmpBuf1, tmpBuf2
      ensures board.Valid()
      ensures var o := ProcessOutcome(board.env, old(board.mem), |old(board.log)|, dst, src, true, WriteChunk);
        r == o.status && board.log == old(board.log) + o.events && board.mem == o.mem
      ensures r != Done(false)
      ensures dst != src && r.Done? ==> board.mem == old(board.mem)[dst := old(board.mem)[src]]
      ensures OnlyDstChanged(old(board.mem), board.mem, dst)
    {
      CopyNeverStopsEarly(board.env, board.mem, |board.log|, dst, src);
      ProcessOnlyTouchesDst(board.env, board.mem, |board.log|, dst, src, true, WriteChunk);
      if dst != src {
        CopyResult(board.env, board.mem, |board.log|, dst, src);
      }
      r := ImgProcess(board, dst, src, true, WriteChunk);
    }

    /** btldr_img_op_cmp: compare the destination with the source chunk by chunk; changes no flash. */
    method Compare(board: Board, dst: AreaId, src: AreaId) returns (r: Status)
      requires Valid() && board.Valid()
      modifies board`log, board`mem, tmpBuf1, tmpBuf2
      ensures board.Valid() && board.mem == old(board.mem)
      ensures var o := ProcessOutcome(board.env, board.mem, |old(board.log)|, dst, src, false, CompareChunk);
        r == o.status && board.log == old(board.log) + o.events
      ensures r.Done? ==> (r.success <==> board.mem[dst] == board.mem[src])
    {
      CompareKeepsFlash(board.env, board.mem, |board.log|, dst, src);
      CompareIffEqual(board.env, board.mem, |board.log|, dst, src);
      r := ImgProcess(board, dst, src, false, CompareChunk);
    }
  }
}
