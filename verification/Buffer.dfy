/** The input buffer shared by the decoders: `feed`, and the reserve/advance protocol by which
    the caller writes straight into it. */
module Buffer {
  import opened Scan
  import opened BodyGrammar

  /** The bytes held; the last `pending` of them are a reservation that is not yet committed. */
  datatype Buf = Buf(data: bytes, pending: nat) {
    predicate Valid() { pending <= |data| }

    function Committed(): bytes
      requires Valid()
    {
      data[..|data| - pending]
    }
  }

  /** The size check of `feed` and `mut_buf`, with its `checked_add`. */
  function Overflow(max: usize, size: nat, more: nat): Option<Error> {
    if size + more > USIZE_MAX then Some(BufferOverflow(USIZE_MAX, max))
    else if size + more > max then Some(BufferOverflow(size + more, max))
    else None
  }

  function Fed(b: Buf, max: usize, data: bytes): Buf {
    if Overflow(max, |b.data|, |data|).Some? then b else b.(data := b.data + data)
  }

  /** `mut_buf` drops an abandoned reservation first, also when it then fails. */
  function Reserved(b: Buf, max: usize, len: nat): Buf
    requires b.Valid()
  {
    var kept := b.Committed();
    if Overflow(max, |kept|, len).Some? then Buf(kept, 0)
    else Buf(kept + seq(len, _ => 0), len)
  }

  /** The caller writes `data` at the start of the slice `mut_buf` returned. */
  function Written(b: Buf, data: bytes): Buf
    requires b.Valid() && |data| <= b.pending
  {
    b.(data := b.Committed() + data + b.data[|b.data| - b.pending + |data|..])
  }

  /** `advance_buf` commits the first `len` reserved bytes and drops the others. */
  function Advanced(b: Buf, len: nat): Buf
    requires b.Valid()
  {
    var len := if len <= b.pending then len else b.pending;
    Buf(b.data[..|b.data| - b.pending + len], 0)
  }

  /** Reserving, writing and advancing is feeding, and whatever was reserved and abandoned
      before leaves no trace. */
  lemma ReserveWriteAdvanceIsFeed(b: Buf, max: usize, len: nat, data: bytes)
    requires b.Valid() && |data| <= len && Overflow(max, |b.Committed()|, len).None?
    ensures Reserved(b, max, len).Valid() && Written(Reserved(b, max, len), data).Valid()
    ensures Advanced(Written(Reserved(b, max, len), data), |data|) == Fed(Buf(b.Committed(), 0), max, data)
  {
    var kept := b.Committed();
    var w := Written(Reserved(b, max, len), data);
    assert Reserved(b, max, len).Committed() == kept;
    assert w.data[..|kept| + |data|] == kept + data;
  }

  /** One step by which the caller brings bytes in. */
  datatype Step = Feed(data: bytes) | Reserve(len: nat) | Write(data: bytes) | Advance(len: nat)

  predicate LegalStep(b: Buf, s: Step) {
    match s
    case Feed(_) => b.pending == 0
    case Write(data) => |data| <= b.pending
    case _ => true
  }

  function Take(b: Buf, max: usize, s: Step): Buf
    requires b.Valid() && LegalStep(b, s)
  {
    match s
    case Feed(data) => Fed(b, max, data)
    case Reserve(len) => Reserved(b, max, len)
    case Write(data) => Written(b, data)
    case Advance(len) => Advanced(b, len)
  }

  /** No step outgrows the limit, and none touches what was committed before. */
  lemma StepsStayWithinLimit(b: Buf, max: usize, s: Step)
    requires b.Valid() && |b.data| <= max && LegalStep(b, s)
    ensures Take(b, max, s).Valid() && |Take(b, max, s).data| <= max
    ensures b.Committed() <= Take(b, max, s).Committed()
  {
  }
}
