/** Whole runs of buffer operations: whatever the allocation scheme and wherever the content
    pointer stands in its block, a buffer behaves as a plain byte sequence. */
module BufRuns {
  import opened Buf

  datatype Op =
    | Append(bytes: seq<Byte>)      // xmlBufAdd
    | Prepend(bytes: seq<Byte>)     // xmlBufAddHead
    | DropFront(len: nat)           // xmlBufShrink
    | DropBack(len: nat)            // xmlBufErase
    | Clear                         // xmlBufEmpty
    | Room(len: nat)                // xmlBufGrow
    | Widen(len: nat)               // xmlBufInflate
    | Refit(len: nat)               // xmlBufResize
    | Rescheme(scheme: Alloc)       // xmlBufSetAllocationScheme

  /** What the operation does to the byte sequence; one that asks for more than there is fails and does nothing. */
  function Applied(content: seq<Byte>, op: Op): seq<Byte> {
    match op
    case Append(bytes) => content + bytes
    case Prepend(bytes) => bytes + content
    case DropFront(len) => if len <= |content| then content[len..] else content
    case DropBack(len) => if len <= |content| then content[..|content| - len] else content
    case Clear => []
    case _ => content
  }

  function Replayed(content: seq<Byte>, ops: seq<Op>): seq<Byte> {
    if ops == [] then content else Applied(Replayed(content, ops[..|ops| - 1]), ops[|ops| - 1])
  }

  /** How much an operation may add. */
  function Weight(op: Op): nat {
    if op.Append? || op.Prepend? then |op.bytes| else 0
  }

  function Weights(ops: seq<Op>): nat {
    if ops == [] then 0 else Weights(ops[..|ops| - 1]) + Weight(ops[|ops| - 1])
  }

  ghost predicate Possible(op: Op) {
    && (op.Refit? ==> op.len <= INT_MAX)
    && (op.Rescheme? ==> op.scheme != Immutable)
  }

  /** One operation, through the calls of buf.c. */
  method Perform(buf: Buffer, op: Op)
    requires buf.Valid() && Possible(op) && buf.use + Weight(op) + 2 <= INT_MAX
    modifies buf, buf.mem
    ensures buf.Valid() && (buf.mem == old(buf.mem) || fresh(buf.mem))
    ensures buf.Contents() == Applied(old(buf.Contents()), op)
  {
    match op
    case Append(bytes) =>
      assert bytes[..|bytes|] == bytes;
      var _ := buf.Add(bytes, |bytes|);
    case Prepend(bytes) =>
      assert bytes[..|bytes|] == bytes;
      var _ := buf.AddHead(bytes, |bytes|);
    case DropFront(len) =>
      var _ := buf.Shrink(len);
    case DropBack(len) =>
      var _ := buf.Erase(len);
    case Clear =>
      buf.Empty();
    case Room(len) =>
      var _ := buf.Grow(len);
    case Widen(len) =>
      var _ := buf.Inflate(len);
    case Refit(len) =>
      var _ := buf.Resize(len);
    case Rescheme(scheme) =>
      var _ := buf.SetAllocationScheme(scheme);
  }

  /** Any run of operations that stays below INT_MAX refines the same run on a byte sequence. */
  method Run(buf: Buffer, ops: seq<Op>)
    requires buf.Valid() && (forall k :: 0 <= k < |ops| ==> Possible(ops[k]))
    requires buf.use + Weights(ops) + 2 <= INT_MAX
    modifies buf, buf.mem
    ensures buf.Valid() && buf.Contents() == Replayed(old(buf.Contents()), ops)
  {
    var i := 0;
    while i < |ops|
      invariant 0 <= i <= |ops|
      invariant buf.Valid() && (buf.mem == old(buf.mem) || fresh(buf.mem))
      invariant buf.Contents() == Replayed(old(buf.Contents()), ops[..i])
      invariant buf.use <= old(buf.use) + Weights(ops[..i])
    {
      assert ops[..i + 1][..i] == ops[..i];
      WeightsGrow(ops, i + 1);
      Perform(buf, ops[i]);
      assert |buf.Contents()| == buf.use;
      i := i + 1;
    }
    assert ops[..|ops|] == ops;
  }

  lemma {:induction false} WeightsGrow(ops: seq<Op>, i: nat)
    requires i <= |ops|
    ensures Weights(ops[..i]) <= Weights(ops)
    decreases |ops|
  {
    if i == |ops| {
      assert ops[..i] == ops;
    } else {
      WeightsGrow(ops[..|ops| - 1], i);
      assert ops[..|ops| - 1][..i] == ops[..i];
    }
  }

  /** Erase takes back what Add appended and Shrink what AddHead put in front; the two ends do not interfere. */
  lemma EndsAreIndependent(content: seq<Byte>, front: seq<Byte>, back: seq<Byte>)
    ensures Replayed(content, [Append(back), DropBack(|back|)]) == content
    ensures Replayed(content, [Prepend(front), DropFront(|front|)]) == content
    ensures Replayed(content, [Append(back), Prepend(front)]) == Replayed(content, [Prepend(front), Append(back)])
  {
    ReplayTwo(content, Append(back), DropBack(|back|));
    ReplayTwo(content, Prepend(front), DropFront(|front|));
    ReplayTwo(content, Append(back), Prepend(front));
    ReplayTwo(content, Prepend(front), Append(back));
    assert (front + content) + back == front + (content + back);
  }

  lemma ReplayTwo(content: seq<Byte>, a: Op, b: Op)
    ensures Replayed(content, [a, b]) == Applied(Applied(content, a), b)
  {
    assert [a, b][..1] == [a] && [a][..0] == [];
    assert Replayed(content, [a]) == Applied(content, a);
  }

  /** The bytes a run appended, and those it dropped from the front, in order. */
  function Written(ops: seq<Op>): seq<Byte> {
    if ops == [] then [] else
    Written(ops[..|ops| - 1]) + if ops[|ops| - 1].Append? then ops[|ops| - 1].bytes else []
  }

  function Taken(content: seq<Byte>, ops: seq<Op>): seq<Byte> {
    if ops == [] then [] else
    var before, op := ops[..|ops| - 1], ops[|ops| - 1];
    var held := Replayed(content, before);
    Taken(content, before) + if op.DropFront? && op.len <= |held| then held[..op.len] else []
  }

  /** As a stream, written at the back and read at the front with any resizing in between, a buffer
      loses, repeats and reorders nothing. */
  lemma {:induction false} StreamIsConserved(content: seq<Byte>, ops: seq<Op>)
    requires forall k :: 0 <= k < |ops| ==> !ops[k].Prepend? && !ops[k].DropBack? && !ops[k].Clear?
    ensures content + Written(ops) == Taken(content, ops) + Replayed(content, ops)
  {
    if ops == [] {
      assert content + [] == [] + content;
    } else {
      var before, op := ops[..|ops| - 1], ops[|ops| - 1];
      StreamIsConserved(content, before);
      var held := Replayed(content, before);
      assert Written(before) + [] == Written(before) && Taken(content, before) + [] == Taken(content, before);
      if op.Append? {
        assert content + (Written(before) + op.bytes) == (content + Written(before)) + op.bytes;
        assert (Taken(content, before) + held) + op.bytes == Taken(content, before) + (held + op.bytes);
      } else if op.DropFront? && op.len <= |held| {
        assert held == held[..op.len] + held[op.len..];
        assert Taken(content, before) + (held[..op.len] + held[op.len..])
            == (Taken(content, before) + held[..op.len]) + held[op.len..];
      }
    }
  }

  function Power(k: nat): nat {
    if k == 0 then 1 else 2 * Power(k - 1)
  }

  /** Doubling stops at the first power that suffices, so a grown block is less than twice what was asked for. */
  lemma {:induction false} DoubledIsLeast(newSize: nat, size: nat) returns (k: nat)
    requires newSize > 0
    ensures Doubled(newSize, size) == newSize * Power(k) >= size
    ensures forall j :: 0 <= j < k ==> newSize * Power(j) < size
    decreases size - newSize
  {
    k := 0;
    if size > newSize {
      var l := DoubledIsLeast(newSize * 2, size);
      k := l + 1;
      assert newSize * Power(k) == newSize * 2 * Power(l);
      forall j | 0 <= j < k
        ensures newSize * Power(j) < size
      {
        if j > 0 {
          assert newSize * Power(j) == newSize * 2 * Power(j - 1);
        }
      }
    }
  }
}
