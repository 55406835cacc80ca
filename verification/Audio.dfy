/** The client side of an audio stream: takes frames out of a queue of chunks and fills playback buffers with them. */
module Audio {
  import opened Collections
  import opened Drift

  lemma Quotient(a: real, rate: real)
    requires rate > 0.0
    ensures a / rate * rate == a && 0.0 / rate == 0.0
  {
  }

  lemma Quotients(a: real, b: real, rate: real)
    requires rate > 0.0
    ensures (1000.0 * (b / rate) - 1000.0 * (a / rate)) * rate == 1000.0 * (b - a)
  {
    Quotient(a, rate);
    Quotient(b, rate);
    var x, y := a / rate, b / rate;
    assert (1000.0 * y - 1000.0 * x) * rate == 1000.0 * (y * rate) - 1000.0 * (x * rate);
  }

  class PcmChunk {
    const timestampMs: real
    const rate: real             // frames per second
    const payload: seq<Frame>
    var idx: nat

    constructor (timestampMs: real, rate: real, payload: seq<Frame>)
      requires rate > 0.0
      ensures Valid() && Left() == payload && idx == 0
      ensures this.timestampMs == timestampMs && this.rate == rate && this.payload == payload
      ensures StartMs() == timestampMs && Duration() * rate == 1000.0 * |payload| as real
    {
      this.timestampMs, this.rate, this.payload, idx := timestampMs, rate, payload, 0;
      new;
      Quotient(0.0, rate);
      Quotient(|payload| as real, rate);
    }

    ghost predicate Valid()
      reads this
    {
      rate > 0.0 && idx <= |payload|
    }

    ghost function Left(): seq<Frame>
      requires Valid()
      reads this
    {
      payload[idx..]
    }

    /** Takes up to `frames` frames off the chunk; it starts later and lasts shorter by the time of the frames taken. */
    method ReadFrames(frames: nat) returns (r: seq<Frame>)
      requires Valid()
      modifies this`idx
      ensures Valid()
      ensures |r| == Min(frames, |old(Left())|)
      ensures old(Left()) == r + Left()
      ensures (StartMs() - old(StartMs())) * rate == 1000.0 * |r| as real
      ensures (old(Duration()) - Duration()) * rate == 1000.0 * |r| as real
    {
      var frameCnt := frames;
      if idx + frames > |payload| {
        frameCnt := |payload| - idx;
      }
      var begin := idx;
      idx := idx + frameCnt;
      r := payload[begin..begin + frameCnt];
      Quotients(begin as real, idx as real, rate);
      Quotients((|payload| - idx) as real, (|payload| - begin) as real, rate);
    }

    predicate IsEndOfChunk()
      reads this
    {
      idx >= |payload|
    }

    function StartMs(): real
      requires rate > 0.0
      reads this
    {
      timestampMs + 1000.0 * (idx as real / rate)
    }

    function Duration(): real
      requires rate > 0.0
      reads this
    {
      1000.0 * ((|payload| - idx) as real / rate)
    }

    function MsRate(): (r: real)
      requires rate > 0.0
      ensures r > 0.0 && r * 1000.0 == rate
    {
      rate / 1000.0
    }
  }

  /** How many whole frames a time takes. */
  function FramesIn(age: real, msRate: real): (n: nat)
    requires age > 0.0 && msRate > 0.0
    ensures n as real <= age * msRate < n as real + 1.0
  {
    (age * msRate).Floor
  }

  /**
   * What seeking to the wanted position amounts to: how many queued frames are passed over, and how
   * many places stay silent before the first frame shown.
   */
  ghost function Resync(q: seq<PcmChunk>, serverPlayTimeMs: real, age: real): (nat, nat)
    requires forall c :: c in q ==> c.Valid()
    reads q
  {
    if q == [] then (0, 0)
    else
      assert q[0] in q && q[0].Valid();
      if age > q[0].Duration() then
        var rest :=
          if |q| == 1 then (0, 0)
          else
            assert q[1] in q && q[1].Valid();
            Resync(q[1..], serverPlayTimeMs, serverPlayTimeMs - q[1].StartMs());
        (|q[0].Left()| + rest.0, rest.1)
      else if age > 0.0 then (Min(FramesIn(age, q[0].MsRate()), |q[0].Left()|), 0)
      else if age < 0.0 then (0, FramesIn(-age, q[0].MsRate()))
      else (0, 0)
  }

  /** The frames of a queue of chunks, in order. */
  ghost function FramesOf(q: seq<PcmChunk>): seq<Frame>
    requires forall c :: c in q ==> c.Valid()
    reads q
  {
    if q == [] then [] else q[0].Left() + FramesOf(q[1..])
  }

  lemma {:induction false} FramesSplit(q: seq<PcmChunk>, i: nat)
    requires (forall c :: c in q ==> c.Valid()) && i <= |q|
    ensures (forall c :: c in q[..i] ==> c.Valid()) && (forall c :: c in q[i..] ==> c.Valid())
    ensures FramesOf(q) == FramesOf(q[..i]) + FramesOf(q[i..])
  {
    if i == 0 {
      assert q[..0] == [] && q[0..] == q;
    } else {
      FramesSplit(q[1..], i - 1);
      assert q[..i][1..] == q[1..][..i - 1] && q[1..][i - 1..] == q[i..] && q[..i][0] == q[0];
      Regroup(q[0].Left(), FramesOf(q[1..][..i - 1]), FramesOf(q[i..]));
    }
  }

  // ---- When the wanted position is found, and when there is silence first ----

  /** How late the next frame of the `i`th chunk is, if the one at the head is `age` late. */
  ghost function AgeAt(q: seq<PcmChunk>, serverPlayTimeMs: real, age: real, i: nat): real
    requires (forall c :: c in q ==> c.Valid()) && i < |q|
    reads q
  {
    assert q[i] in q && q[i].Valid();
    if i == 0 then age else serverPlayTimeMs - q[i].StartMs()
  }

  ghost predicate OverAt(q: seq<PcmChunk>, serverPlayTimeMs: real, age: real, i: nat)
    requires (forall c :: c in q ==> c.Valid()) && i < |q|
    reads q
  {
    assert q[i] in q && q[i].Valid();
    AgeAt(q, serverPlayTimeMs, age, i) > q[i].Duration()
  }

  /** The first chunk that is not over yet. */
  ghost function Current(q: seq<PcmChunk>, serverPlayTimeMs: real, age: real): (i: nat)
    requires forall c :: c in q ==> c.Valid()
    reads q
    ensures i <= |q|
  {
    if q == [] then 0
    else
      assert q[0] in q && q[0].Valid();
      if age <= q[0].Duration() then 0
      else if |q| == 1 then 1
      else assert q[1] in q && q[1].Valid(); 1 + Current(q[1..], serverPlayTimeMs, serverPlayTimeMs - q[1].StartMs())
  }

  lemma {:induction false} CurrentIsFirst(q: seq<PcmChunk>, serverPlayTimeMs: real, age: real)
    requires forall c :: c in q ==> c.Valid()
    ensures var i := Current(q, serverPlayTimeMs, age);
            && (forall j: nat :: j < i ==> OverAt(q, serverPlayTimeMs, age, j))
            && (i < |q| ==> !OverAt(q, serverPlayTimeMs, age, i))
  {
    assert q != [] ==> q[0] in q && q[0].Valid();
    if |q| > 1 && age > q[0].Duration() {
      assert q[1] in q && q[1].Valid();
      var age' := serverPlayTimeMs - q[1].StartMs();
      CurrentIsFirst(q[1..], serverPlayTimeMs, age');
      forall j: nat | 0 < j < |q|
        ensures OverAt(q, serverPlayTimeMs, age, j) == OverAt(q[1..], serverPlayTimeMs, age', j - 1)
      {
        assert q[1..][j - 1] == q[j];
      }
    }
  }

  /** How many frames too early the next frame of the current chunk is; zero if nothing is queued or it is due. */
  ghost function Early(q: seq<PcmChunk>, serverPlayTimeMs: real, age: real): (frames: real)
    requires forall c :: c in q ==> c.Valid()
    reads q
    ensures frames >= 0.0
  {
    var i := Current(q, serverPlayTimeMs, age);
    if i == |q| then 0.0
    else
      assert q[i] in q && q[i].Valid();
      var late := AgeAt(q, serverPlayTimeMs, age, i);
      if late < 0.0 then -late * q[i].MsRate() else 0.0
  }

  /**
   * Seeking passes over the chunks that are over; in the current one it skips what is late, or waits until it
   * is due.
   */
  lemma {:induction false} ResyncAt(q: seq<PcmChunk>, serverPlayTimeMs: real, age: real)
    requires forall c :: c in q ==> c.Valid()
    ensures var i := Current(q, serverPlayTimeMs, age);
            && (forall c :: c in q[..i] ==> c.Valid())
            && Resync(q, serverPlayTimeMs, age) ==
               (|FramesOf(q[..i])| + Skipped(q, serverPlayTimeMs, age, i), Early(q, serverPlayTimeMs, age).Floor)
  {
    hide Resync, Current, Early, Skipped, AgeAt, FramesOf, PcmChunk.Duration, PcmChunk.StartMs;
    var i := Current(q, serverPlayTimeMs, age);
    if i == 0 {
      ResyncHere(q, serverPlayTimeMs, age);
    } else if |q| == 1 {
      ResyncLast(q, serverPlayTimeMs, age);
    } else {
      NextChunk(q, serverPlayTimeMs, age);
      ResyncAt(q[1..], serverPlayTimeMs, serverPlayTimeMs - q[1].StartMs());
      FramesFirst(q, i);
    }
  }

  lemma ResyncLast(q: seq<PcmChunk>, serverPlayTimeMs: real, age: real)
    requires (forall c :: c in q ==> c.Valid()) && |q| == 1 && Current(q, serverPlayTimeMs, age) == 1
    ensures q[..1] == q && Resync(q, serverPlayTimeMs, age) == (|FramesOf(q)|, 0)
    ensures Skipped(q, serverPlayTimeMs, age, 1) == 0 && Early(q, serverPlayTimeMs, age) == 0.0
  {
    assert q[1..] == [];
  }

  /** A chunk that is over is passed over. */
  lemma NextChunk(q: seq<PcmChunk>, serverPlayTimeMs: real, age: real)
    requires (forall c :: c in q ==> c.Valid()) && |q| > 1 && Current(q, serverPlayTimeMs, age) > 0
    ensures q[1] in q && q[1].Valid() && q[0] in q
    ensures var i, age' := Current(q, serverPlayTimeMs, age), serverPlayTimeMs - q[1].StartMs();
            && Current(q[1..], serverPlayTimeMs, age') == i - 1
            && Resync(q, serverPlayTimeMs, age) ==
               (|q[0].Left()| + Resync(q[1..], serverPlayTimeMs, age').0, Resync(q[1..], serverPlayTimeMs, age').1)
            && Skipped(q[1..], serverPlayTimeMs, age', i - 1) == Skipped(q, serverPlayTimeMs, age, i)
            && Early(q[1..], serverPlayTimeMs, age') == Early(q, serverPlayTimeMs, age)
  {
    hide AgeAt, PcmChunk.Duration, PcmChunk.StartMs, PcmChunk.MsRate, FramesIn;
    assert q[1] in q && q[1].Valid();
    var i := Current(q, serverPlayTimeMs, age);
    if i < |q| {
      SameAge(q, serverPlayTimeMs, age, i);
    }
  }

  lemma ResyncHere(q: seq<PcmChunk>, serverPlayTimeMs: real, age: real)
    requires (forall c :: c in q ==> c.Valid()) && Current(q, serverPlayTimeMs, age) == 0
    ensures FramesOf(q[..0]) == []
    ensures Resync(q, serverPlayTimeMs, age)
            == (Skipped(q, serverPlayTimeMs, age, 0), Early(q, serverPlayTimeMs, age).Floor)
  {
    if q != [] {
      hide PcmChunk.MsRate, PcmChunk.Duration, PcmChunk.StartMs;
      assert q[0] in q && q[0].Valid();
      assert age <= q[0].Duration();
      assert AgeAt(q, serverPlayTimeMs, age, 0) == age;
      if age < 0.0 {
        assert Early(q, serverPlayTimeMs, age) == -age * q[0].MsRate();
      } else {
        assert Early(q, serverPlayTimeMs, age) == 0.0;
      }
    }
  }

  /** How many frames of the `i`th chunk have passed already. */
  ghost function Skipped(q: seq<PcmChunk>, serverPlayTimeMs: real, age: real, i: nat): nat
    requires (forall c :: c in q ==> c.Valid()) && i <= |q|
    reads q
  {
    if i == |q| || AgeAt(q, serverPlayTimeMs, age, i) <= 0.0 then 0
    else
      assert q[i] in q && q[i].Valid();
      Min(FramesIn(AgeAt(q, serverPlayTimeMs, age, i), q[i].MsRate()), |q[i].Left()|)
  }

  lemma SameAge(q: seq<PcmChunk>, serverPlayTimeMs: real, age: real, i: nat)
    requires (forall c :: c in q ==> c.Valid()) && 0 < i < |q|
    ensures q[1] in q && q[1].Valid() && q[1..][i - 1] == q[i]
    ensures AgeAt(q[1..], serverPlayTimeMs, serverPlayTimeMs - q[1].StartMs(), i - 1)
            == AgeAt(q, serverPlayTimeMs, age, i)
  {
  }

  lemma FramesFirst(q: seq<PcmChunk>, i: nat)
    requires (forall c :: c in q ==> c.Valid()) && 0 < i <= |q|
    ensures (forall c :: c in q[..i] ==> c.Valid()) && (forall c :: c in q[1..][..i - 1] ==> c.Valid()) && q[0] in q
    ensures FramesOf(q[..i]) == q[0].Left() + FramesOf(q[1..][..i - 1])
  {
    assert q[..i][1..] == q[1..][..i - 1] && q[..i][0] == q[0];
  }

  /** The arrays show the frames `s`, placed from `start` on. */
  ghost predicate Laid(l: seq<int>, r: seq<int>, start: int, s: seq<Frame>, addFrames: int, n: nat) {
    && |l| == |r| && (addFrames != 0 ==> n >= 1)
    && forall p :: 0 <= p < |l| ==> (l[p], r[p]) == Placed(s, p - start, addFrames, n)
  }

  /** Writing one frame to the places it belongs to. */
  lemma LaidNext(l: seq<int>, r: seq<int>, l': seq<int>, r': seq<int>, start: int, s: seq<Frame>, x: Frame,
                 addFrames: int, n: nat)
    requires Laid(l, r, start, s, addFrames, n) && |l'| == |r'| == |l|
    requires forall p :: 0 <= p < |l| ==>
             (l'[p], r'[p]) == if Written(|s|, p - start, addFrames, n) then x else (l[p], r[p])
    ensures Laid(l', r', start, s + [x], addFrames, n)
  {
    forall p | 0 <= p < |l|
      ensures (l'[p], r'[p]) == Placed(s + [x], p - start, addFrames, n)
    {
      hide Placed, Written;
      PlacedNext(s, x, p - start, addFrames, n);
    }
  }

  /** Places one frame; writing behind the end of the buffer has no effect. */
  method PlaceFrame(left: array<int>, right: array<int>, x: Frame, read: int, pos0: int, addFrames: int, everyN: nat,
                    ghost start: int, ghost s: seq<Frame>) returns (pos: int)
    requires left != right && left.Length == right.Length
    requires Laid(left[..], right[..], start, s, addFrames, everyN)
    requires addFrames == 0 ==> everyN == 0
    requires everyN != 0 ==> read == |s| + 1
    requires pos0 == start + Cursor(|s|, addFrames, everyN) && start >= 0
    modifies left, right
    ensures Laid(left[..], right[..], start, s + [x], addFrames, everyN)
    ensures pos == start + Cursor(|s| + 1, addFrames, everyN)
  {
    hide Laid, Cursor;
    ghost var l, r := left[..], right[..];
    LaidLengths(l, r, start, s, addFrames, everyN);
    CursorNext(|s|, addFrames, everyN);
    pos := pos0;
    if pos < left.Length {
      left[pos] := x.0;
      right[pos] := x.1;
    }
    if everyN != 0 && read % everyN == 0 {
      if addFrames > 0 {
        pos := pos - 1;
      } else {
        if pos + 1 < left.Length {
          left[pos + 1] := left[pos];
          right[pos + 1] := right[pos];
        }
        pos := pos + 1;
      }
    }
    pos := pos + 1;
    LaidNext(l, r, left[..], right[..], start, s, x, addFrames, everyN);
  }

  lemma LaidLengths(l: seq<int>, r: seq<int>, start: int, s: seq<Frame>, addFrames: int, n: nat)
    requires Laid(l, r, start, s, addFrames, n)
    ensures |l| == |r| && (addFrames != 0 ==> n >= 1)
  {
  }

  /** Places the frames of one piece of payload. */
  method PlaceAll(left: array<int>, right: array<int>, payload: seq<Frame>, read0: int, pos0: int, addFrames: int,
                  everyN: nat, ghost start: int, ghost s: seq<Frame>)
    returns (read: int, pos: int)
    requires left != right && left.Length == right.Length
    requires Laid(left[..], right[..], start, s, addFrames, everyN)
    requires addFrames == 0 ==> everyN == 0
    requires everyN != 0 ==> read0 == |s|
    requires pos0 == start + Cursor(|s|, addFrames, everyN) && start >= 0
    modifies left, right
    ensures Laid(left[..], right[..], start, s + payload, addFrames, everyN)
    ensures read == read0 + |payload|
    ensures pos == start + Cursor(|s| + |payload|, addFrames, everyN)
  {
    hide Laid, Cursor;
    read, pos := read0, pos0;
    LaidLengths(left[..], right[..], start, s, addFrames, everyN);
    assert s + payload[..0] == s;
    for i := 0 to |payload|
      invariant Laid(left[..], right[..], start, s + payload[..i], addFrames, everyN)
      invariant read == read0 + i
      invariant pos == start + Cursor(|s| + i, addFrames, everyN)
    {
      read := read + 1;
      pos := PlaceFrame(left, right, payload[i], read, pos, addFrames, everyN, start, s + payload[..i]);
      assert s + payload[..i + 1] == s + payload[..i] + [payload[i]];
    }
    assert payload[..|payload|] == payload;
  }

  class AudioStream {
    const msRate: real           // frames per millisecond
    const bufferMs: real
    var chunk: PcmChunk?
    var chunks: seq<PcmChunk>
    ghost var repr: set<PcmChunk>

    constructor (msRate: real, bufferMs: real)
      requires msRate > 0.0
      ensures Valid() && Queue() == [] && chunk == null && repr == {} && this.msRate == msRate
              && this.bufferMs == bufferMs
    {
      this.msRate, this.bufferMs := msRate, bufferMs;
      chunk, chunks, repr := null, [], {};
    }

    /** The chunk being played, and those waiting. */
    ghost function Queue(): seq<PcmChunk>
      reads this
    {
      if chunk == null then chunks else [chunk] + chunks
    }

    ghost predicate Valid()
      reads this, repr
    {
      && msRate > 0.0
      && (forall c :: c in Queue() ==> c in repr && c.Valid())
      && Distinct(Queue())
    }

    /** All frames still to be played. */
    ghost function Pending(): seq<Frame>
      requires Valid()
      reads this, repr
    {
      FramesOf(Queue())
    }

    /** What seeking amounts to, for the frame at the head of the queue being `age` late. */
    ghost function Sync(serverPlayTimeMs: real, age: real): (nat, nat)
      requires Valid()
      reads this, repr
    {
      Resync(Queue(), serverPlayTimeMs, age)
    }

    /**
     * The first `k` waiting chunks are too old, by five seconds and the buffer time, and the next one is not.
     * The clock is read anew for each chunk.
     */
    ghost predicate Outdated(waiting: seq<PcmChunk>, readings: seq<real>, k: nat) {
      && k <= |waiting| <= |readings|
      && (forall i :: 0 <= i < k ==> readings[i] - waiting[i].timestampMs > 5000.0 + bufferMs)
      && (k < |waiting| ==> readings[k] - waiting[k].timestampMs <= 5000.0 + bufferMs)
    }

    /** Puts a chunk at the end of those waiting, and drops those in front that are outdated. */
    method AddChunk(c: PcmChunk, readings: seq<real>) returns (ghost k: nat)
      requires Valid() && c.Valid() && c !in Queue() && |readings| > |chunks|
      modifies this`chunks, this`repr
      ensures Valid() && repr == old(repr) + {c}
      ensures Outdated(old(chunks) + [c], readings, k)
      ensures chunks == (old(chunks) + [c])[k..]
    {
      hide Distinct, AudioStream.Outdated;
      ghost var q := Queue();
      AddDistinct(q, c);
      chunks := chunks + [c];
      repr := repr + {c};
      assert Queue() == q + [c];
      k := DropOutdated(readings);
    }

    method DropOutdated(readings: seq<real>) returns (ghost k: nat)
      requires Valid() && |readings| >= |chunks|
      modifies this`chunks
      ensures Valid()
      ensures Outdated(old(chunks), readings, k)
      ensures chunks == old(chunks)[k..]
    {
      hide Distinct;
      ghost var head, waiting := if chunk == null then [] else [chunk], chunks;
      assert Queue() == head + waiting;
      var n := 0;
      while |chunks| > 0
        invariant n <= |waiting| && chunks == waiting[n..]
        invariant forall i :: 0 <= i < n ==> readings[i] - waiting[i].timestampMs > 5000.0 + bufferMs
      {
        var age := readings[n] - chunks[0].timestampMs;
        if age > 5000.0 + bufferMs {
          chunks := chunks[1..];
          n := n + 1;
        } else {
          break;
        }
      }
      k := n;
      assert Queue() == head + waiting[k..];
      StillValid(head + waiting, head, waiting, k);
    }

    lemma StillValid(q: seq<PcmChunk>, head: seq<PcmChunk>, waiting: seq<PcmChunk>, k: nat)
      requires q == head + waiting && k <= |waiting| && Queue() == head + waiting[k..]
      requires msRate > 0.0 && (forall c :: c in q ==> c in repr && c.Valid()) && Distinct(q)
      ensures Valid()
    {
      hide Distinct;
      DropDistinct(head, waiting, k);
    }

    static lemma AddDistinct(q: seq<PcmChunk>, c: PcmChunk)
      requires Distinct(q) && c !in q
      ensures Distinct(q + [c])
    {
    }

    static lemma DropDistinct(head: seq<PcmChunk>, waiting: seq<PcmChunk>, k: nat)
      requires k <= |waiting| && Distinct(head + waiting)
      ensures Distinct(head + waiting[k..])
    {
      var all, kept := head + waiting, head + waiting[k..];
      forall i, j | 0 <= i < j < |kept|
        ensures kept[i] != kept[j]
      {
        assert kept[i] == all[if i < |head| then i else i + k];
        assert kept[j] == all[if j < |head| then j else j + k];
      }
    }

    /** Makes the next chunk the current one, if there is no current one. */
    method Advance()
      requires Valid() && (chunk == null || chunk.Left() == [])
      modifies this`chunk, this`chunks
      ensures Valid() && Pending() == old(Pending())
      ensures Queue() == if old(chunk) == null then old(Queue()) else old(Queue())[1..]
      ensures chunk == null ==> chunks == []
    {
      ghost var q := Queue();
      if chunks == [] {
        chunk := null;
      } else {
        chunk, chunks := chunks[0], chunks[1..];
      }
      if old(chunk) == null {
        assert Queue() == q;
      } else {
        assert q[1..] == Queue();
      }
    }

    /** Reads from the current chunk. */
    method ReadChunk(frames: nat) returns (r: seq<Frame>)
      requires Valid() && chunk != null
      modifies chunk`idx
      ensures Valid() && Queue() == old(Queue())
      ensures old(Pending()) == r + Pending()
      ensures |r| == Min(frames, |old(chunk.Left())|)
      ensures |r| < frames ==> chunk.Left() == []
    {
      ghost var q := Queue();
      ghost var rest := FramesOf(q[1..]);
      assert q[0] == chunk && chunk !in q[1..];
      r := chunk.ReadFrames(frames);
      assert FramesOf(q[1..]) == rest;
      assert old(chunk.Left()) + rest == r + (chunk.Left() + rest);
    }

    /** Reads and places frames until enough have been read or the queue is empty. */
    method Play(left: array<int>, right: array<int>, readFrames: int, read0: nat, addFrames: int, everyN: nat)
      returns (read: int, pos: int, ghost s: seq<Frame>)
      requires Valid() && left != right && left.Length == right.Length
      requires Laid(left[..], right[..], read0, [], addFrames, everyN)
      requires addFrames == 0 ==> everyN == 0
      requires addFrames != 0 ==> read0 == 0
      requires chunk == null ==> chunks == []
      modifies this`chunk, this`chunks, repr, left, right
      ensures Valid() && s + Pending() == old(Pending())
      ensures Laid(left[..], right[..], read0, s, addFrames, everyN)
      ensures read == read0 + |s|
      ensures readFrames >= read0 ==> read <= readFrames
      ensures readFrames <= read0 ==> s == []
      ensures read >= readFrames || Pending() == []
      ensures pos == read0 + Cursor(|s|, addFrames, everyN)
    {
      hide Laid, Cursor, FramesOf, AudioStream.Pending, AudioStream.Queue, AudioStream.Valid;
      read, s := read0, [];
      pos := read0;
      LaidLengths(left[..], right[..], read0, [], addFrames, everyN);
      CursorStarts(addFrames, everyN);
      ghost var all := Pending();
      while read < readFrames && chunk != null
        invariant Valid() && s + Pending() == all
        invariant Laid(left[..], right[..], read0, s, addFrames, everyN)
        invariant read == read0 + |s| && (readFrames >= read0 ==> read <= readFrames)
                  && (readFrames <= read0 ==> s == [])
        invariant pos == read0 + Cursor(|s|, addFrames, everyN)
        invariant chunk == null ==> chunks == []
        decreases |Queue()|, readFrames - read
      {
        ghost var payload;
        read, pos, payload := PlayChunk(left, right, readFrames, read0, read, pos, addFrames, everyN, s);
        Regroup(s, payload, Pending());
        s := s + payload;
      }
      if chunk == null {
        NothingPending();
      }
    }

    lemma NothingPending()
      requires Valid() && chunk == null && chunks == []
      ensures Pending() == []
    {
    }

    /** One turn of the loop: reads from the current chunk, and goes on to the next one at its end. */
    method PlayChunk(left: array<int>, right: array<int>, readFrames: int, ghost read0: nat, read1: int, pos1: int,
                     addFrames: int, everyN: nat, ghost s: seq<Frame>)
      returns (read: int, pos: int, ghost payload: seq<Frame>)
      requires Valid() && chunk != null && left != right && left.Length == right.Length
      requires Laid(left[..], right[..], read0, s, addFrames, everyN)
      requires addFrames == 0 ==> everyN == 0
      requires addFrames != 0 ==> read0 == 0
      requires read1 == read0 + |s| && read1 < readFrames
      requires pos1 == read0 + Cursor(|s|, addFrames, everyN)
      modifies this`chunk, this`chunks, repr, left, right
      ensures Valid() && payload + Pending() == old(Pending())
      ensures Laid(left[..], right[..], read0, s + payload, addFrames, everyN)
      ensures read == read1 + |payload| <= readFrames
      ensures pos == read0 + Cursor(|s| + |payload|, addFrames, everyN)
      ensures chunk == null ==> chunks == []
      ensures |Queue()| < |old(Queue())| || (|Queue()| == |old(Queue())| && read == readFrames)
    {
      hide Laid, Cursor, FramesOf;
      assert chunk == Queue()[0] && chunk in Queue();
      var frames := ReadChunk(readFrames - read1);
      payload := frames;
      read, pos := PlaceAll(left, right, frames, read1, pos1, addFrames, everyN, read0, s);
      assert Queue() == old(Queue());
      if chunk.IsEndOfChunk() {
        assert chunk.Valid() && chunk.Left() == [];
        Advance();
      }
    }

    /** Throws away the current chunk. */
    method DropChunk() returns (ghost dropped: seq<Frame>)
      requires Valid() && chunk != null
      modifies this`chunk, this`chunks
      ensures Valid() && old(Pending()) == dropped + Pending()
      ensures Queue() == old(Queue())[1..] && dropped == old(chunk.Left()) && (chunk == null ==> chunks == [])
    {
      ghost var q := Queue();
      dropped := chunk.Left();
      if chunks == [] {
        chunk := null;
      } else {
        chunk, chunks := chunks[0], chunks[1..];
      }
      assert q[1..] == Queue();
    }

    lemma HeadRate()
      requires Valid() && chunk != null
      ensures chunk.rate > 0.0 && chunk in repr
    {
      assert chunk == Queue()[0];
      assert chunk in Queue() && chunk.Valid();
    }

    /** Drops the chunks that are over already. */
    method DropOld(serverPlayTimeMs: real, age0: real) returns (age: real, ghost gone: seq<Frame>)
      requires Valid() && chunk != null
      modifies this`chunk, this`chunks
      ensures Valid() && gone + Pending() == old(Pending())
      ensures chunk == null ==> chunks == []
      ensures chunk != null ==> chunk.rate > 0.0 && age <= chunk.Duration()
      ensures old(Sync(serverPlayTimeMs, age0)) ==
              (|gone| + Sync(serverPlayTimeMs, age).0, Sync(serverPlayTimeMs, age).1)
    {
      hide FramesOf, AudioStream.Pending, AudioStream.Queue, AudioStream.Valid, AudioStream.Sync, PcmChunk.StartMs,
           PcmChunk.Duration;
      age, gone := age0, [];
      ghost var all, sync := Pending(), Sync(serverPlayTimeMs, age0);
      HeadRate();
      while chunk != null && age > chunk.Duration()
        invariant Valid() && gone + Pending() == all
        invariant chunk == null ==> chunks == []
        invariant chunk != null ==> chunk.rate > 0.0
        invariant sync == (|gone| + Sync(serverPlayTimeMs, age).0, Sync(serverPlayTimeMs, age).1)
        decreases |Queue()|
      {
        ghost var before := Pending();
        ghost var dropped;
        age, dropped := DropOne(serverPlayTimeMs, age);
        Regroup(gone, dropped, Pending());
        gone := gone + dropped;
        if chunk == null {
          break;
        }
        HeadRate();
      }
    }

    /** Drops one chunk that is over, and looks at the next one. */
    method DropOne(serverPlayTimeMs: real, age0: real) returns (age: real, ghost dropped: seq<Frame>)
      requires Valid() && chunk != null && chunk.rate > 0.0 && age0 > chunk.Duration()
      modifies this`chunk, this`chunks
      ensures Valid() && old(Pending()) == dropped + Pending()
      ensures |Queue()| < |old(Queue())| && (chunk == null ==> chunks == [])
      ensures old(Sync(serverPlayTimeMs, age0)) ==
              (|dropped| + Sync(serverPlayTimeMs, age).0, Sync(serverPlayTimeMs, age).1)
    {
      hide FramesOf, AudioStream.Pending, PcmChunk.StartMs, PcmChunk.Duration;
      ghost var q := Queue();
      assert q[0] == chunk;
      dropped := DropChunk();
      assert Queue() == q[1..];
      age := age0;
      if chunk != null {
        HeadRate();
        assert q[1] == chunk;
        age := serverPlayTimeMs - chunk.StartMs();
      }
    }

    /**
     * More than five milliseconds apart: drops what is too old, or waits in silence, instead of correcting the
     * drift.
     */
    method HardSync(serverPlayTimeMs: real, age0: real) returns (age: real, silentFrames: nat, ghost gone: seq<Frame>)
      requires Valid() && chunk != null
      modifies this`chunk, this`chunks, repr
      ensures Valid() && gone + Pending() == old(Pending())
      ensures chunk != null ==> age == 0.0
      ensures chunk == null ==> chunks == []
      ensures (|gone|, silentFrames) == old(Sync(serverPlayTimeMs, age0))
    {
      hide FramesOf, AudioStream.Pending, FramesIn, PcmChunk.StartMs, PcmChunk.Duration, PcmChunk.MsRate, Distinct;
      silentFrames := 0;
      age, gone := DropOld(serverPlayTimeMs, age0);
      if chunk != null {
        assert Queue()[0] == chunk;
        if age > 0.0 {
          HeadRate();
          var skipped := ReadChunk(FramesIn(age, chunk.MsRate()));
          Regroup(gone, skipped, Pending());
          gone := gone + skipped;
        } else if age < 0.0 {
          HeadRate();
          silentFrames := FramesIn(-age, chunk.MsRate());
        }
        age := 0.0;
      }
    }

    /** How late the frame at the head of the queue is. */
    ghost function HeadAge(serverPlayTimeMs: real): real
      requires Valid() && Queue() != []
      reads this, repr
    {
      assert Queue()[0] in Queue();
      serverPlayTimeMs - Queue()[0].StartMs()
    }

    lemma HeadIs(serverPlayTimeMs: real)
      requires Valid() && chunk != null
      ensures chunk.rate > 0.0 && Queue() != [] && HeadAge(serverPlayTimeMs) == serverPlayTimeMs - chunk.StartMs()
    {
      assert chunk == Queue()[0];
      assert chunk in Queue() && chunk.Valid();
    }

    /** Brings the stream into sync and plays from it. */
    method FillBuffer(left: array<int>, right: array<int>, serverPlayTimeMs: real, age0: real)
      requires Valid() && chunk != null && left != right && left.Length == right.Length
      requires Silent(left[..], right[..])
      modifies this`chunk, this`chunks, repr, left, right
      ensures Valid()
      ensures -5.0 <= age0 <= 5.0 ==>
                Played(old(Pending()), Pending(), left[..], right[..], left.Length, AddFrames(age0))
      ensures !(-5.0 <= age0 <= 5.0) ==>
                Resumed(old(Pending()), Pending(), left[..], right[..], left.Length, old(Sync(serverPlayTimeMs, age0)))
    {
      hide FramesOf, AudioStream.Pending, AudioStream.Valid, AudioStream.Queue, AudioStream.Sync, Resumed, Laid, Shown,
           Cursor, Played, AddFrames, EveryN, Silent;
      var frames, age, read0 := left.Length, age0, 0;
      ghost var all, gone := Pending(), [];
      assert [] + all == all;
      if age > 5.0 || age < -5.0 {
        age, read0, gone := HardSync(serverPlayTimeMs, age);
      }
      if chunk == null {
        NothingPending();
        NothingResumed(all, left[..], right[..], frames, read0);
      } else {
        AddFramesBound(age);
        var addFrames := AddFrames(age);
        var readFrames := frames + addFrames - read0;
        var everyN := 0;
        if addFrames != 0 {
          EveryNRoundsUp(readFrames, addFrames);
          everyN := EveryN(readFrames, addFrames);
        }
        ghost var before := Pending();
        var read, pos := read0, read0;
        ghost var s := [];
        assert s + before == before;
        if readFrames > 0 || addFrames == 0 {
          LaidStarts(left[..], right[..], read0, addFrames, everyN);
          read, pos, s := Play(left, right, readFrames, read0, addFrames, everyN);
        }
        if read == readFrames {
          read := frames;
        }
        ghost var l, r := left[..], right[..];
        if read < frames {
          FillZero(left, pos);
          FillZero(right, pos);
        }
        assert Cleared(l, r, left[..], right[..], read < frames, pos);
        if -5.0 <= age0 <= 5.0 {
          NoSpacing(frames);
          if readFrames > 0 || addFrames == 0 {
            PlayIsPlayed(s, Pending(), l, r, left[..], right[..], frames, addFrames, everyN);
          } else {
            NothingPlayed(Pending(), l, r, left[..], right[..], frames, addFrames, pos);
          }
        } else {
          CursorPlain(|s|);
          FillKeeps(l, r, left[..], right[..], read0, s);
          PlayedIsResumed(all, gone, s, Pending(), left[..], right[..], frames, read0);
        }
      }
    }

    /**
     * Fills a playback buffer. In sync to within five milliseconds, and with enough frames queued, it
     * consumes exactly the buffer's length and the correction, and shows those frames in order.
     */
    method GetNextBuffer(frames: nat, serverPlayTimeMs: real) returns (left: array<int>, right: array<int>)
      requires Valid()
      modifies this`chunk, this`chunks, repr
      ensures Valid() && fresh(left) && fresh(right) && left.Length == right.Length == frames
      ensures old(Queue()) == [] || TooYoung(old(HeadAge(serverPlayTimeMs)), frames, msRate) ==>
                Pending() == old(Pending()) && Silent(left[..], right[..])
      ensures old(Queue()) != [] && !TooYoung(old(HeadAge(serverPlayTimeMs)), frames, msRate) ==>
                var age, before := old(HeadAge(serverPlayTimeMs)), old(Pending());
                if -5.0 <= age <= 5.0 then
                  && Played(before, Pending(), left[..], right[..], frames, AddFrames(age))
                  && (frames > 30 ==> Delivered(before, Pending(), left[..], right[..], frames, AddFrames(age)))
                else
                  Resumed(before, Pending(), left[..], right[..], frames,
                          old(Sync(serverPlayTimeMs, HeadAge(serverPlayTimeMs))))
    {
      hide FramesOf, AudioStream.Pending, Played, Delivered, Resumed, Resync, AddFrames, TooYoung, PcmChunk.StartMs;
      left := new int[frames](_ => 0);
      right := new int[frames](_ => 0);
      if chunk == null {
        Advance();
      }
      if chunk != null {
        HeadIs(serverPlayTimeMs);
        var age := serverPlayTimeMs - chunk.StartMs();
        if !TooYoung(age, frames, msRate) {
          FillBuffer(left, right, serverPlayTimeMs, age);
          if frames > 30 && -5.0 <= age <= 5.0 {
            AddFramesBound(age);
            PlayedIsDelivered(old(Pending()), Pending(), left[..], right[..], frames, AddFrames(age));
          }
        }
      }
    }
  }

  /** Silence from place `pos` on. */
  method FillZero(a: array<int>, pos: int)
    modifies a
    ensures forall p :: 0 <= p < a.Length ==> a[p] == if p < pos then old(a[p]) else 0
  {
    for i := 0 to a.Length
      invariant forall p :: 0 <= p < i ==> a[p] == if p < pos then old(a[p]) else 0
      invariant forall p :: i <= p < a.Length ==> a[p] == old(a[p])
    {
      if i >= pos {
        a[i] := 0;
      }
    }
  }

  lemma LaidStarts(l: seq<int>, r: seq<int>, start: int, addFrames: int, n: nat)
    requires Silent(l, r) && (addFrames != 0 ==> n >= 1)
    ensures Laid(l, r, start, [], addFrames, n)
  {
  }

  /** The places from `pos` on have been cleared, if `clear` says so. */
  ghost predicate Cleared(l: seq<int>, r: seq<int>, l': seq<int>, r': seq<int>, clear: bool, pos: int) {
    && |l| == |r| == |l'| == |r'|
    && forall p :: 0 <= p < |l| ==> (l'[p], r'[p]) == if clear && p >= pos then (0, 0) else (l[p], r[p])
  }

  /**
   * What playing in sync amounts to, for any buffer: the frames wanted are taken, or all that are queued, and
   * placed. If they run out before the length of the buffer has been read, the places from there on are silent.
   */
  ghost predicate Played(before: seq<Frame>, after: seq<Frame>, l: seq<int>, r: seq<int>, frames: nat, addFrames: int) {
    var want, n := Max(0, frames + addFrames), EveryN(frames + addFrames, addFrames);
    var s := before[..Min(want, |before|)];
    && |l| == |r| == frames && after == before[|s|..]
    && if want == 0 then Silent(l, r)
       else
         && n >= (if addFrames == 0 then 0 else 1)
         && forall p :: 0 <= p < frames ==> (l[p], r[p]) == PlayedAt(s, frames, want, addFrames, n, p)
  }

  function PlayedAt(s: seq<Frame>, frames: nat, want: nat, addFrames: int, n: nat, p: nat): Frame
    requires addFrames != 0 ==> n >= 1
  {
    if |s| < want && |s| < frames && p >= Cursor(|s|, addFrames, n) then (0, 0) else Placed(s, p, addFrames, n)
  }

  lemma NoSpacing(frames: nat)
    ensures EveryN(frames, 0) == 0
  {
  }

  lemma PlayIsPlayed(s: seq<Frame>, after: seq<Frame>, l: seq<int>, r: seq<int>, l': seq<int>, r': seq<int>,
                     frames: nat, addFrames: int, n: nat)
    requires |l| == |r| == frames && (frames + addFrames > 0 || addFrames == 0)
    requires n == EveryN(frames + addFrames, addFrames) && Laid(l, r, 0, s, addFrames, n)
    requires |s| <= frames + addFrames && (|s| == frames + addFrames || after == [])
    requires Cleared(l, r, l', r', |s| != frames + addFrames && |s| < frames, Cursor(|s|, addFrames, n))
    ensures Played(s + after, after, l', r', frames, addFrames)
  {
    hide EveryN, Cursor, Placed;
    var want := frames + addFrames;
    assert (s + after)[..|s|] == s && (s + after)[|s|..] == after;
    assert Min(want, |s + after|) == |s|;
    forall p | 0 <= p < frames
      ensures (l'[p], r'[p]) == PlayedAt(s, frames, want, addFrames, n, p)
    {
      assert (l[p], r[p]) == Placed(s, p - 0, addFrames, n);
    }
  }

  lemma NothingPlayed(before: seq<Frame>, l: seq<int>, r: seq<int>, l': seq<int>, r': seq<int>, frames: nat,
                      addFrames: int, pos: int)
    requires Silent(l, r) && |l| == frames && frames + addFrames <= 0
    requires exists clear :: Cleared(l, r, l', r', clear, pos)
    ensures Played(before, before, l', r', frames, addFrames)
  {
    assert before[..0] == [] && before[0..] == before;
  }

  /** For buffers that are large enough, each place shows its own frame. */
  lemma PlayedIsDelivered(before: seq<Frame>, after: seq<Frame>, l: seq<int>, r: seq<int>, frames: nat, addFrames: int)
    requires Fits(frames, addFrames) && Played(before, after, l, r, frames, addFrames)
    ensures Delivered(before, after, l, r, frames, addFrames)
  {
    hide Shown, ShownShort, Placed, Cursor, EveryN;
    var want, n := frames + addFrames, Spacing(frames, addFrames);
    var s := before[..Min(want, |before|)];
    forall p | 0 <= p < frames && |before| >= want
      ensures 0 <= Shown(frames, addFrames, p) < |before| && (l[p], r[p]) == before[Shown(frames, addFrames, p)]
    {
      BufferFull(frames, addFrames, s, p);
    }
    forall p | 0 <= p < frames && |before| < want
      ensures (l[p], r[p]) == ShownShort(before, frames, addFrames, p)
    {
      assert s == before;
      ClearedIsShort(s, frames, addFrames, p, (l[p], r[p]));
    }
  }

  predicate TooYoung(age: real, frames: nat, msRate: real)
    requires msRate > 0.0
  {
    age < -(frames as real / msRate)
  }

  /** Too young is what starts later than the whole buffer lasts. */
  lemma TooYoungIs(age: real, frames: nat, msRate: real)
    requires msRate > 0.0
    ensures TooYoung(age, frames, msRate) <==> -age * msRate > frames as real
  {
    var t := frames as real / msRate;
    assert t * msRate == frames as real;
    if -age > t {
      Larger(-age, t, msRate);
    } else {
      NotLarger(-age, t, msRate);
    }
  }

  lemma Larger(a: real, b: real, rate: real)
    requires rate > 0.0 && a > b
    ensures a * rate > b * rate
  {
  }

  lemma NotLarger(a: real, b: real, rate: real)
    requires rate > 0.0 && a <= b
    ensures a * rate <= b * rate
  {
  }

  ghost predicate Silent(l: seq<int>, r: seq<int>) {
    |l| == |r| && forall p :: 0 <= p < |l| ==> l[p] == 0 && r[p] == 0
  }

  /**
   * After seeking, some places stay silent and the frames that follow are shown behind them. The silent
   * places are counted twice, so that as many places at the end stay silent, too.
   */
  ghost predicate Resumed(before: seq<Frame>, after: seq<Frame>, l: seq<int>, r: seq<int>, frames: nat,
                          sync: (nat, nat)) {
    var skip, silent := sync.0, sync.1;
    && skip <= |before| && |l| == |r| == frames
    && var n := Min(if frames > 2 * silent then frames - 2 * silent else 0, |before| - skip);
       && after == before[skip + n..]
       && forall p :: 0 <= p < frames ==>
          (l[p], r[p]) == if silent <= p < silent + n then before[skip + p - silent] else (0, 0)
  }

  /** After seeking, every place behind the silent ones takes a frame, as long as there are any. */
  ghost predicate InTime(before: seq<Frame>, after: seq<Frame>, frames: nat, sync: (nat, nat)) {
    |before| - sync.0 - |after| == Min(Max(0, frames - sync.1), |before| - sync.0)
  }

  /**
   * That is so exactly if nothing is waited for by a whole frame or more, or all of the buffer is, or so
   * few frames are queued that the places lost at the end would stay silent anyway.
   */
  lemma SilenceCountedTwice(q: seq<PcmChunk>, serverPlayTimeMs: real, age: real, after: seq<Frame>, l: seq<int>,
                            r: seq<int>, frames: nat)
    requires forall c :: c in q ==> c.Valid()
    requires Resumed(FramesOf(q), after, l, r, frames, Resync(q, serverPlayTimeMs, age))
    ensures var i, early := Current(q, serverPlayTimeMs, age), Early(q, serverPlayTimeMs, age);
            && (forall c :: c in q[i..] ==> c.Valid())
            && (InTime(FramesOf(q), after, frames, Resync(q, serverPlayTimeMs, age)) <==>
                early < 1.0 || early >= frames as real || |FramesOf(q[i..])| <= Max(0, frames - 2 * early.Floor))
  {
    hide Resync, Current, Early, FramesOf;
    var i := Current(q, serverPlayTimeMs, age);
    ResyncAt(q, serverPlayTimeMs, age);
    EarlySkips(q, serverPlayTimeMs, age);
    FramesSplit(q, i);
    hide Skipped;
  }

  /** What is waited for is not late. */
  lemma EarlySkips(q: seq<PcmChunk>, serverPlayTimeMs: real, age: real)
    requires forall c :: c in q ==> c.Valid()
    ensures Early(q, serverPlayTimeMs, age) > 0.0 ==>
            Skipped(q, serverPlayTimeMs, age, Current(q, serverPlayTimeMs, age)) == 0
  {
  }

  /**
   * An example: ten milliseconds before the first frame is due, 480 of 1024 places wait in silence, 64
   * show frames, and the last 480 are silent again, although 960 more frames are queued.
   */
  method LosesTime() returns (shown: seq<Frame>, ghost queued: seq<Frame>)
    ensures |shown| == 1024 && |queued| == 960
    ensures forall p :: 0 <= p < 1024 ==> shown[p] == if 480 <= p < 544 then (1, 1) else (0, 0)
  {
    hide Resync, FramesOf, Resumed, Played, Delivered, AddFrames, PcmChunk.StartMs, PcmChunk.Duration, Distinct, Silent,
         TooYoung;
    var c := new PcmChunk(10.0, 48000.0, seq(1024, _ => (1, 1)));
    var stream := new AudioStream(48.0, 1000.0);
    ghost var waiting := stream.chunks + [c];
    assert waiting == [c];
    var k := stream.AddChunk(c, [0.0]);
    assert k == 0 && waiting[0..] == waiting;
    assert stream.Queue() == [c];
    TenEarly(c);
    ghost var before := stream.Pending();
    var left, right := stream.GetNextBuffer(1024, 0.0);
    shown, queued := Zip(left[..], right[..]), stream.Pending();
    SixtyFour(before, queued, left[..], right[..]);
  }

  lemma SixtyFour(before: seq<Frame>, after: seq<Frame>, l: seq<int>, r: seq<int>)
    requires |before| == 1024 && (forall p :: 0 <= p < 1024 ==> before[p] == (1, 1))
    requires Resumed(before, after, l, r, 1024, (0, 480))
    ensures |after| == 960 && |l| == |r| == 1024
    ensures forall p :: 0 <= p < 1024 ==> (l[p], r[p]) == if 480 <= p < 544 then (1, 1) else (0, 0)
  {
  }

  function Zip(l: seq<int>, r: seq<int>): (s: seq<Frame>)
    requires |l| == |r|
    ensures |s| == |l| && forall p :: 0 <= p < |s| ==> s[p] == (l[p], r[p])
  {
    seq(|l|, p requires 0 <= p < |l| => (l[p], r[p]))
  }

  lemma TenEarly(c: PcmChunk)
    requires c.Valid() && c.idx == 0 && c.timestampMs == 10.0 && c.rate == 48000.0
    ensures c.StartMs() == 10.0
    ensures Resync([c], 0.0, -10.0) == (0, 480) && !TooYoung(-10.0, 1024, 48.0)
    ensures FramesOf([c]) == c.Left()
  {
    assert [c][1..] == [];
    assert c.MsRate() == 48.0;
    assert c.Duration() >= 0.0;
  }

  lemma NothingResumed(before: seq<Frame>, l: seq<int>, r: seq<int>, frames: nat, silent: nat)
    requires Silent(l, r) && |l| == frames
    ensures Resumed(before, [], l, r, frames, (|before|, silent))
  {
  }

  lemma FillKeeps(l: seq<int>, r: seq<int>, l': seq<int>, r': seq<int>, start: int, s: seq<Frame>)
    requires Laid(l, r, start, s, 0, 0) && |l'| == |r'| == |l|
    requires forall p :: 0 <= p < |l| ==>
             (l'[p] == l[p] && r'[p] == r[p]) || (p >= start + |s| && l'[p] == 0 && r'[p] == 0)
    ensures Laid(l', r', start, s, 0, 0)
  {
  }

  lemma PlayedIsResumed(before: seq<Frame>, gone: seq<Frame>, s: seq<Frame>, after: seq<Frame>, l: seq<int>,
                        r: seq<int>, frames: nat, silent: nat)
    requires |l| == |r| == frames && before == gone + (s + after)
    requires Laid(l, r, silent, s, 0, 0)
    requires silent + |s| >= frames - silent || after == []
    requires if silent <= frames - silent then silent + |s| <= frames - silent else s == []
    ensures Resumed(before, after, l, r, frames, (|gone|, silent))
  {
    forall p | 0 <= p < frames
      ensures (l[p], r[p]) == if silent <= p < silent + |s| then before[|gone| + p - silent] else (0, 0)
    {
      assert (l[p], r[p]) == Placed(s, p - silent, 0, 0);
    }
  }

  /**
   * With enough frames queued, exactly those needed are taken, and each place shows its own; otherwise
   * all are taken, and the places shown before the queue ran out show theirs.
   */
  ghost predicate Delivered(before: seq<Frame>, after: seq<Frame>, l: seq<int>, r: seq<int>, frames: nat,
                            addFrames: int) {
    && Fits(frames, addFrames) && |l| == |r| == frames
    && if |before| >= frames + addFrames
       then after == before[frames + addFrames..] && forall p :: 0 <= p < frames ==>
         0 <= Shown(frames, addFrames, p) < |before| && (l[p], r[p]) == before[Shown(frames, addFrames, p)]
       else after == [] && forall p :: 0 <= p < frames ==> (l[p], r[p]) == ShownShort(before, frames, addFrames, p)
  }

  lemma CursorPlain(r: nat)
    ensures Cursor(r, 0, 0) == r
  {
  }

  lemma CursorStarts(addFrames: int, n: nat)
    requires addFrames != 0 ==> n >= 1
    ensures Cursor(0, addFrames, n) == 0
  {
    if addFrames != 0 {
      DivUnique(0, n, 0, 0);
    }
  }
}
