/** The memory buffer of buf.c.  `mem` is the allocated block; in IO mode `content` may
    have moved into it by `start` bytes.  A NULL content is an empty block of size zero. */
module Buf {
  import Utf8

  type Byte = Utf8.Byte

  const INT_MAX := 0x7FFF_FFFF
  const UINT_MAX := 0xFFFF_FFFF
  const BASE_BUFFER_SIZE := 4096

  datatype Alloc = DoubleIt | Exact | Immutable | Io | Hybrid

  function Compat(n: nat): nat {
    if n < INT_MAX then n else INT_MAX
  }

  /** The size chosen by xmlBufResize, in the width of an unsigned int. */
  function ResizeTo(alloc: Alloc, oldSize: nat, use: nat, size: nat): nat
    requires use <= oldSize
  {
    match alloc
    case Io => Doubled(if oldSize == 0 then size + 10 else oldSize * 2, size)
    case DoubleIt => Doubled(if oldSize == 0 then size + 10 else oldSize * 2, size)
    case Exact => size + 10
    case Hybrid => if use < BASE_BUFFER_SIZE then size else Doubled(oldSize * 2, size)
    case Immutable => size + 10
  }

  function Doubled(newSize: nat, size: nat): (r: nat)
    ensures r >= size && r >= newSize
    ensures newSize > 0 ==> r == newSize || r < 2 * size
    decreases size - newSize
  {
    if newSize == 0 then size
    else if size > newSize then Doubled(newSize * 2, size) else newSize
  }

  lemma AppendsWhole(content: seq<Byte>, str: seq<Byte>, kept: nat)
    requires kept <= |str|
    ensures content + str[kept..] == content + str <==> kept == 0
  {
    assert |content + str[kept..]| == |content + str| - kept;
  }

  /** What stands behind bytes that were written over others. */
  lemma Spliced(before: seq<Byte>, after: seq<Byte>, at: nat, bytes: seq<Byte>, k: nat)
    requires at + |bytes| + k < |before| && after == before[..at] + bytes + before[at + |bytes|..]
    ensures after[at..at + |bytes| + k] == bytes + before[at + |bytes|..at + |bytes| + k]
    ensures after[at + |bytes| + k] == before[at + |bytes| + k]
  {
  }

  lemma SliceFront(s: seq<Byte>, a: nat, k: nat, m: nat)
    requires k <= m && a + m <= |s|
    ensures s[a..a + k] == s[a..a + m][..k]
  {
  }

  lemma OneMore(content: seq<Byte>, str: seq<Byte>, kept: nat, i: nat)
    requires kept <= i < |str|
    ensures content + str[i..i + 1] == content + [str[i]]
    ensures content + str[kept..i + 1] == content + str[kept..i] + [str[i]]
  {
  }

  lemma FrontIs(a: seq<Byte>, b: seq<Byte>)
    ensures (a + b)[..|a|] == a
  {
  }

  class Buffer {
    var mem: array<Byte>
    var start: nat
    var use: nat
    var size: nat
    var compatUse: nat
    var compatSize: nat
    var alloc: Alloc
    var hasIo: bool  // contentIO is not NULL

    /** The block holds the perceived size behind the content pointer; only IO and immutable
        buffers have moved it; the compatibility fields agree. */
    ghost predicate Fits()
      reads this
    {
      && use <= size && start + size <= mem.Length
      && (start > 0 ==> alloc == Immutable || (alloc == Io && hasIo))
      && compatUse == Compat(use) && compatSize == Compat(size)
    }

    /** A zero byte follows the content. */
    ghost predicate Terminated()
      reads this, mem
    {
      use < size && start + size <= mem.Length && mem[start + use] == 0
    }

    ghost predicate Valid()
      reads this, mem
    {
      Fits() && Terminated() && alloc != Immutable
    }

    /** Any buffer between two operations: valid, immutable, or still without a block. */
    ghost predicate Usable()
      reads this, mem
    {
      Fits() && (alloc == Immutable || Terminated() || (size == 0 && start == 0 && !hasIo))
    }

    /** Like Usable, but perhaps not terminated. */
    ghost predicate Sound()
      reads this
    {
      Fits() && (alloc == Immutable || use < size || (size == 0 && start == 0 && !hasIo))
    }

    ghost function Contents(): seq<Byte>
      reads this, mem
      requires Fits()
    {
      mem[start..start + use]
    }

    /** xmlBufCreateSize. */
    constructor (size: nat, scheme: Alloc)
      requires scheme != Immutable && scheme != Io && size + 2 < INT_MAX
      ensures Fits() && fresh(mem) && Contents() == [] && alloc == scheme
      ensures if size == 0 then this.size == 0 else Valid() && this.size == size + 2
    {
      var n := if size > 0 then size + 2 else 0;
      this.size, compatSize := n, n;
      start, use, compatUse := 0, 0, 0;
      alloc, hasIo := scheme, false;
      mem := new Byte[n](_ => 0);
    }

    method UpdateCompat()
      modifies `compatUse, `compatSize
      ensures compatUse == Compat(use) && compatSize == Compat(size)
    {
      if size < INT_MAX { compatSize := size; } else { compatSize := INT_MAX; }
      if use < INT_MAX { compatUse := use; } else { compatUse := INT_MAX; }
    }

    /** The CHECK_COMPAT macro: between operations it changes nothing. */
    method CheckCompat()
      modifies `use, `size
      ensures old(size) == compatSize || compatSize >= INT_MAX ==> size == old(size)
      ensures old(size) != compatSize && compatSize < INT_MAX ==> size == compatSize
      ensures old(use) == compatUse || compatUse >= INT_MAX ==> use == old(use)
      ensures old(use) != compatUse && compatUse < INT_MAX ==> use == compatUse
    {
      if size != compatSize {
        if compatSize < INT_MAX {
          size := compatSize;
        }
      }
      if use != compatUse {
        if compatUse < INT_MAX {
          use := compatUse;
        }
      }
    }

    /** realloc: a new block of n bytes that starts like the old one. */
    method Realloc(n: nat)
      modifies `mem
      ensures fresh(mem) && mem.Length == n
      ensures var k := if n < old(mem.Length) then n else old(mem.Length); mem[..k] == old(mem[..])[..k]
    {
      var k := if n < mem.Length then n else mem.Length;
      var newbuf := new Byte[n];
      Move(newbuf, 0, mem[..k]);
      mem := newbuf;
    }

    /** memcpy or memmove of bytes read beforehand. */
    static method Move(block: array<Byte>, at: nat, bytes: seq<Byte>)
      requires at + |bytes| <= block.Length
      modifies block
      ensures block[..] == old(block[..at]) + bytes + old(block[at + |bytes|..])
    {
      forall i | 0 <= i < |bytes| {
        block[at + i] := bytes[i];
      }
    }

    /** The same in front of k bytes, which stay. */
    static method MoveBefore(block: array<Byte>, at: nat, bytes: seq<Byte>, ghost k: nat)
      requires at + |bytes| + k < block.Length
      modifies block
      ensures block[at..at + |bytes| + k] == bytes + old(block[at + |bytes|..at + |bytes| + k])
      ensures block[at + |bytes| + k] == old(block[at + |bytes| + k])
    {
      ghost var before := block[..];
      Move(block, at, bytes);
      Spliced(before, block[..], at, bytes, k);
    }

    /** xmlBufSetAllocationScheme. */
    method SetAllocationScheme(scheme: Alloc) returns (r: int)
      requires Fits()
      modifies this
      ensures Fits() && mem == old(mem) && Contents() == old(Contents())
      ensures use == old(use) && size == old(size) && start == old(start)
      ensures alloc == if old(alloc) == Immutable || old(alloc) == Io then old(alloc) else scheme
      ensures old(Valid()) && scheme != Immutable ==> Valid()
    {
      if alloc == Immutable || alloc == Io { return -1; }
      if scheme != Io {
        alloc := scheme;
        return 0;
      }
      alloc := Io;
      hasIo := mem.Length > 0;
      r := -1;
    }

    /** xmlBufShrink: drops a prefix. */
    method Shrink(len: nat) returns (r: nat)
      requires Valid()
      modifies this, mem
      ensures Valid() && mem == old(mem) && alloc == old(alloc)
      ensures r == if len > old(use) then 0 else len
      ensures Contents() == old(Contents())[r..] && start + size == old(start + size)
    {
      CheckCompat();
      if len == 0 { return 0; }
      if len > use { return 0; }
      ghost var rest := Contents()[len..];
      assert rest == mem[start + len..start + use];
      Drop(len);
      UpdateCompat();
      assert Contents() == rest;
      r := len;
    }

    /** The branches of xmlBufShrink. */
    method Drop(len: nat)
      requires len <= use < size && start + size <= mem.Length && mem[start + use] == 0
      requires start > 0 ==> alloc == Io && hasIo
      modifies this, mem
      ensures mem == old(mem) && alloc == old(alloc) && hasIo == old(hasIo)
      ensures use == old(use) - len && use < size && start + size == old(start + size)
      ensures start > 0 ==> alloc == Io && hasIo
      ensures mem[start..start + use] == old(mem[start + len..start + use]) && mem[start + use] == 0
    {
      use := use - len;
      if alloc == Io && hasIo {
        start := start + len;
        size := size - len;
        if start >= size {
          MoveToStart();
        }
      } else {
        MoveDown(len);
      }
    }

    /** Moves what follows the first len bytes down to the content pointer; `use` is already the new one. */
    method MoveDown(len: nat)
      requires start + len + use < start + size <= mem.Length
      modifies mem
      ensures mem[start..start + use] == old(mem[start + len..start + len + use]) && mem[start + use] == 0
    {
      Move(mem, start, mem[start + len..start + len + use]);
      assert mem[..][start..start + use] == old(mem[start + len..start + len + use]);
      mem[start + use] := 0;
    }

    /** Moves the content of an IO buffer back to the start of its block. */
    method MoveToStart()
      requires use < size && start + size <= mem.Length
      modifies this, mem
      ensures start == 0 && use == old(use) && size == old(size) + old(start)
      ensures mem == old(mem) && alloc == old(alloc) && hasIo == old(hasIo)
      ensures mem[..use] == old(mem[start..start + use]) && mem[use] == 0
    {
      Move(mem, 0, mem[start..start + use]);
      mem[use] := 0;
      size := size + start;
      start := 0;
    }

    /** xmlBufErase: drops a suffix. */
    method Erase(len: nat) returns (r: int)
      requires Valid()
      modifies this, mem
      ensures Valid() && mem == old(mem) && alloc == old(alloc) && size == old(size)
      ensures len > old(use) ==> r == -1 && Contents() == old(Contents())
      ensures len <= old(use) ==> r == 0 && Contents() == old(Contents())[..old(use) - len]
    {
      CheckCompat();
      if len > use { return -1; }
      use := use - len;
      mem[start + use] := 0;
      UpdateCompat();
      r := 0;
    }

    /** xmlBufEmpty. */
    method Empty()
      requires Valid()
      modifies this, mem
      ensures Valid() && mem == old(mem) && alloc == old(alloc)
      ensures Contents() == [] && start + size == old(start + size)
      ensures alloc == Io && hasIo ==> start == 0
    {
      CheckCompat();
      use := 0;
      if alloc == Io && hasIo {
        size := size + start;
        start := 0;
        mem[0] := 0;
      } else {
        mem[start] := 0;
      }
      UpdateCompat();
    }

    /** Gives the perceived buffer n bytes, keeping what it holds. */
    method GrowBlock(n: nat)
      requires use < size && start + size <= mem.Length && n >= size
      modifies `mem, `size
      ensures size == n && fresh(mem) && start + size <= mem.Length
      ensures mem[start..start + use] == old(mem[start..start + use]) && mem[start + use] == old(mem[start + use])
    {
      Realloc(start + n);
      ghost var k := if start + n < old(mem.Length) then start + n else old(mem.Length);
      assert mem[..k][start..start + use] == old(mem[..])[..k][start..start + use];
      assert mem[..k][start + use] == old(mem[..])[..k][start + use];
      size := n;
    }

    /** xmlBufGrowInternal: afterwards strictly more than len bytes are free. */
    method GrowInternal(len: nat) returns (avail: nat)
      requires Usable() && (alloc == Immutable || Terminated())
      modifies this
      ensures Usable() && alloc == old(alloc) && use == old(use) && start == old(start) && Contents() == old(Contents())
      ensures old(alloc) == Immutable ==> avail == 0 && mem == old(mem) && size == old(size)
      ensures old(alloc) != Immutable ==> Valid() && avail == size - use && avail > len && size >= old(size)
      ensures old(alloc) != Immutable ==>
        size == if use + len < old(size) then old(size) else if old(size) > len then 2 * old(size) else use + len + 100
      ensures mem == old(mem) || fresh(mem)
    {
      CheckCompat();
      if alloc == Immutable { return 0; }
      if use + len < size { return size - use; }
      GrowTo(if size > len then size * 2 else use + len + 100);
      avail := size - use;
    }

    method GrowTo(n: nat)
      requires Valid() && n >= size
      modifies this
      ensures Valid() && size == n && alloc == old(alloc) && use == old(use) && start == old(start)
      ensures Contents() == old(Contents()) && fresh(mem)
    {
      GrowBlock(n);
      UpdateCompat();
    }

    /** xmlBufGrow. */
    method Grow(len: int) returns (r: int)
      requires Usable() && (alloc == Immutable || Terminated())
      modifies this
      ensures Usable() && (old(Valid()) ==> Valid())
      ensures alloc == old(alloc) && Contents() == old(Contents()) && (mem == old(mem) || fresh(mem))
      ensures len < 0 ==> r == -1
      ensures len == 0 || (len > 0 && old(alloc) == Immutable) ==> r == 0
      ensures len > 0 && old(alloc) != Immutable ==> r == size - use && r > len
    {
      if len < 0 { return -1; }
      if len == 0 { return 0; }
      r := GrowInternal(len);
    }

    /** xmlBufInflate: at least len more bytes than before. */
    method Inflate(len: nat) returns (r: int)
      requires Usable() && (alloc == Immutable || Terminated())
      modifies this
      ensures Usable() && (old(Valid()) ==> Valid())
      ensures alloc == old(alloc) && Contents() == old(Contents()) && (mem == old(mem) || fresh(mem))
      ensures r == 0 && (old(alloc) != Immutable ==> size > old(size) + len)
    {
      var _ := GrowInternal(len + size);
      r := 0;
    }

    /** The size computation of xmlBufResize; in this range it never reports an overflow. */
    method ComputeSize(n: nat) returns (newSize: nat)
      requires use <= size <= n <= INT_MAX
      ensures newSize == ResizeTo(alloc, size, use, n) && newSize >= n && newSize <= UINT_MAX
    {
      match alloc
      case Exact => newSize := n + 10;
      case Hybrid =>
        if use < BASE_BUFFER_SIZE { newSize := n; } else { newSize := DoubleUp(size * 2, n); }
      case Immutable => newSize := n + 10;
      case _ => newSize := DoubleUp(if size > 0 then size * 2 else n + 10, n);
    }

    method DoubleUp(from: nat, n: nat) returns (newSize: nat)
      requires 0 < from <= UINT_MAX && n <= INT_MAX
      ensures newSize == Doubled(from, n) && newSize <= UINT_MAX
    {
      newSize := from;
      while n > newSize
        invariant 0 < newSize <= UINT_MAX && Doubled(newSize, n) == Doubled(from, n)
        decreases n - newSize
      {
        assert newSize <= UINT_MAX / 2;
        newSize := newSize * 2;
      }
    }

    /** The last step of xmlBufResize when the block is replaced. */
    method Reblock(newSize: nat)
      requires use <= size <= newSize && start + size <= mem.Length && (use < size || (size == 0 && start == 0))
      requires start > 0 ==> alloc == Io && hasIo
      modifies this, mem
      ensures use == old(use) && size == newSize && start + size <= mem.Length && fresh(mem)
      ensures start == old(start) && alloc == old(alloc) && hasIo == old(hasIo)
      ensures mem[start..start + use] == old(mem[start..start + use])
      ensures old(Terminated()) ==> use < size && mem[start + use] == 0
    {
      if size == 0 {
        mem := new Byte[newSize];
        size := newSize;
      } else if (alloc == Io && hasIo) || size - use < 100 {
        GrowBlock(newSize);
      } else {
        var rebuf := new Byte[newSize];
        Move(rebuf, 0, mem[..use]);
        assert rebuf[..use] == mem[..use];
        rebuf[use] := 0;
        assert rebuf[..use] == mem[..use];
        mem := rebuf;
        size := newSize;
      }
    }

    /** xmlBufResize, for sizes up to INT_MAX. */
    method Resize(n: nat) returns (ok: bool)
      requires Sound() && n <= INT_MAX
      modifies this, mem
      ensures Sound() && alloc == old(alloc) && use == old(use) && Contents() == old(Contents())
      ensures mem == old(mem) || fresh(mem)
      ensures ok == (alloc != Immutable)
      ensures ok ==> size >= n && (old(Terminated()) ==> Terminated())
      ensures ok ==> if n < old(size) then size == old(size) else size == ResizeTo(alloc, old(size), use, n)
    {
      CheckCompat();
      if alloc == Immutable { return false; }
      if n < size { return true; }
      var newSize := ComputeSize(n);
      Refit(newSize);
      ok := true;
    }

    /** The content moves to the start of its block if that gives room enough; else the block is replaced. */
    method Refit(newSize: nat)
      requires Sound() && alloc != Immutable && size <= newSize
      modifies this, mem
      ensures Sound() && alloc == old(alloc) && use == old(use) && size == newSize && Contents() == old(Contents())
      ensures (mem == old(mem) || fresh(mem)) && (old(Terminated()) ==> Terminated())
    {
      if alloc == Io && hasIo && start > newSize {
        MoveToStart();
        size := newSize;
      } else {
        Reblock(newSize);
      }
      UpdateCompat();
    }

    /** The needSize test of xmlBufAdd and xmlBufAddHead. */
    method MakeRoom(needSize: nat)
      requires Sound() && alloc != Immutable && use < needSize <= INT_MAX
      modifies this, mem
      ensures Sound() && alloc == old(alloc) && use == old(use) && Contents() == old(Contents())
      ensures (mem == old(mem) || fresh(mem)) && size >= needSize
    {
      if needSize > size {
        var _ := Resize(needSize);
      }
    }

    /** xmlBufAdd: appends.  Length -1 stands for a zero-terminated string. */
    method Add(str: seq<Byte>, len: int) returns (r: int)
      requires Usable() && len <= |str| && use + |str| + 2 <= INT_MAX
      modifies this, mem
      ensures Usable() && (old(Valid()) ==> Valid()) && alloc == old(alloc) && (mem == old(mem) || fresh(mem))
      ensures alloc == Immutable || len < -1 ==> r == -1 && Contents() == old(Contents())
      ensures alloc != Immutable && len >= -1 ==>
        var l := if len < 0 then |str| else len;
        r == 0 && Contents() == old(Contents()) + str[..l] && (l > 0 ==> Valid())
    {
      CheckCompat();
      if alloc == Immutable { return -1; }
      if len < -1 { return -1; }
      if len == 0 { return 0; }
      var l := if len < 0 then |str| else len;
      if l == 0 { return 0; }
      MakeRoom(use + l + 2);
      WriteTail(str[..l]);
      r := 0;
    }

    /** Copies bytes behind the content and terminates it. */
    method WriteTail(bytes: seq<Byte>)
      requires Sound() && alloc != Immutable && use + |bytes| < size
      modifies mem, `use, `compatUse, `compatSize
      ensures Valid() && Contents() == old(Contents()) + bytes
    {
      Move(mem, start + use, bytes);
      use := use + |bytes|;
      mem[start + use] := 0;
      UpdateCompat();
    }

    /** xmlBufAddHead: prepends. */
    method AddHead(str: seq<Byte>, len: int) returns (r: int)
      requires Usable() && len <= |str| && use + |str| + 2 <= INT_MAX
      modifies this, mem
      ensures Usable() && (old(Valid()) ==> Valid()) && alloc == old(alloc) && (mem == old(mem) || fresh(mem))
      ensures alloc == Immutable || len < -1 || (len == -1 && str == []) ==> r == -1 && Contents() == old(Contents())
      ensures alloc != Immutable && len == 0 ==> r == 0 && Contents() == old(Contents())
      ensures alloc != Immutable && (len > 0 || (len == -1 && str != [])) ==>
        r == 0 && Valid() && Contents() == str[..if len < 0 then |str| else len] + old(Contents())
    {
      CheckCompat();
      if alloc == Immutable { return -1; }
      if len < -1 { return -1; }
      if len == 0 { return 0; }
      var l := if len < 0 then |str| else len;
      if l <= 0 { return -1; }
      if alloc == Io && hasIo && start > l {
        WriteBefore(str[..l]);
      } else {
        MakeRoom(use + l + 2);
        WriteHead(str[..l]);
      }
      r := 0;
    }

    /** The space that Shrink left in front of the content is taken back. */
    method WriteBefore(bytes: seq<Byte>)
      requires Valid() && |bytes| < start
      modifies mem, `use, `size, `start, `compatUse, `compatSize
      ensures Valid() && Contents() == bytes + old(Contents())
    {
      start := start - |bytes|;
      MoveBefore(mem, start, bytes, use);
      use := use + |bytes|;
      size := size + |bytes|;
      UpdateCompat();
    }

    /** The content moves up and the bytes go in front of it. */
    method WriteHead(bytes: seq<Byte>)
      requires Sound() && alloc != Immutable && use + |bytes| < size
      modifies mem, `use, `compatUse, `compatSize
      ensures Valid() && Contents() == bytes + old(Contents())
    {
      MoveUp(mem, start, mem[start..start + use], bytes);
      use := use + |bytes|;
      mem[start + use] := 0;
      UpdateCompat();
    }

    static method MoveUp(block: array<Byte>, at: nat, content: seq<Byte>, bytes: seq<Byte>)
      requires at + |bytes| + |content| < block.Length
      modifies block
      ensures block[at..at + |bytes| + |content|] == bytes + content
    {
      forall i | 0 <= i < |content| {
        block[at + |bytes| + i] := content[i];
      }
      forall i | 0 <= i < |bytes| {
        block[at + i] := bytes[i];
      }
    }

    /** In the middle of xmlBufCCat: `use` may be ahead of its compatibility copy u0. */
    ghost predicate Writing(u0: nat)
      reads this
    {
      && u0 <= use <= size && start + size <= mem.Length && compatUse == u0 < INT_MAX && compatSize == Compat(size)
      && alloc != Immutable && (start > 0 ==> alloc == Io && hasIo)
      && (use < size || (size == 0 && start == 0 && !hasIo))
    }

    /** One turn of the loop of xmlBufCCat.  The resize starts with CheckCompat, which sets `use` back to u0. */
    method PutChar(c: Byte, ghost u0: nat) returns (reset: bool)
      requires Writing(u0) && use + 10 <= INT_MAX
      modifies this, mem
      ensures Writing(u0) && use < size && alloc == old(alloc) && (mem == old(mem) || fresh(mem))
      ensures reset == old(use + 10 >= size)
      ensures reset ==> mem[start..start + use] == old(mem[start..start + u0]) + [c]
      ensures reset ==> use == u0 + 1 && size == ResizeTo(alloc, old(size), u0, old(use) + 10)
      ensures !reset ==>
        use == old(use) + 1 && size == old(size) && mem[start..start + use] == old(mem[start..start + use]) + [c]
    {
      reset := use + 10 >= size;
      if reset {
        SetBackAndResize(use + 10, u0);
      }
      StoreChar(c);
    }

    method SetBackAndResize(n: nat, ghost u0: nat)
      requires Writing(u0) && use < n <= INT_MAX && size <= n
      modifies this, mem
      ensures Writing(u0) && use == u0 && size >= n && alloc == old(alloc) && (mem == old(mem) || fresh(mem))
      ensures mem[start..start + u0] == old(mem[start..start + u0]) && size == ResizeTo(alloc, old(size), u0, n)
    {
      CheckCompat();
      assert Contents() == mem[start..start + u0];
      var _ := Resize(n);
    }

    method StoreChar(c: Byte)
      requires start + use < mem.Length
      modifies mem, `use
      ensures use == old(use) + 1
      ensures mem[start..start + use] == old(mem[start..start + use]) + [c]
    {
      mem[start + use] := c;
      use := use + 1;
    }

    /** The first i characters are dealt with; those from `kept` on stand behind the content. */
    ghost predicate Filled(u0: nat, content: seq<Byte>, str: seq<Byte>, kept: nat, i: nat)
      reads this, mem
    {
      && kept <= i <= |str| && |content| == u0
      && Writing(u0) && use == u0 + i - kept && mem[start..start + use] == content + str[kept..i]
    }

    /** One turn of the loop, in terms of the whole string. */
    method PutNext(str: seq<Byte>, i: nat, ghost u0: nat, ghost content: seq<Byte>, ghost kept: nat)
      returns (ghost keptNow: nat)
      requires i < |str| && Filled(u0, content, str, kept, i) && use + 10 <= INT_MAX
      modifies this, mem
      ensures Filled(u0, content, str, keptNow, i + 1) && use < size
      ensures alloc == old(alloc) && (mem == old(mem) || fresh(mem))
      ensures keptNow == if old(use + 10 >= size) then i else kept
      ensures size == if old(use + 10 >= size) then ResizeTo(alloc, old(size), u0, old(use) + 10) else old(size)
    {
      SliceFront(mem[..], start, u0, use);
      FrontIs(content, str[kept..i]);
      OneMore(content, str, kept, i);
      var reset := PutChar(str[i], u0);
      keptNow := if reset then i else kept;
    }

    /** The loop of xmlBufCCat. */
    method Fill(str: seq<Byte>, ghost u0: nat, ghost content: seq<Byte>) returns (ghost kept: nat)
      requires Filled(u0, content, str, 0, 0) && u0 + |str| + 10 <= INT_MAX
      modifies this, mem
      ensures Filled(u0, content, str, kept, |str|) && (str != [] ==> use < size && kept < |str|)
      ensures alloc == old(alloc) && (mem == old(mem) || fresh(mem))
      ensures str == [] ==> mem == old(mem) && size == old(size)
      ensures kept == 0 <==> |str| <= 1 || u0 + |str| - 1 + 10 < old(SizeAfterFirst())
    {
      kept := 0;
      ghost var size1 := SizeAfterFirst();
      var i := 0;
      while i < |str|
        invariant Filled(u0, content, str, kept, i) && (i > 0 ==> kept < i && use < size)
        invariant alloc == old(alloc) && (mem == old(mem) || fresh(mem))
        invariant i == 0 ==> mem == old(mem) && size == old(size) && use == old(use) && SizeAfterFirst() == size1
        invariant i > 0 && kept == 0 ==> size == size1
        invariant kept == 0 <==> i <= 1 || u0 + i - 1 + 10 < size1
      {
        kept := PutNext(str, i, u0, content, kept);
        i := i + 1;
      }
    }

    /** xmlBufCCat: what is appended is the part from the last resize on, so the string is
        appended whole exactly if no resize is due after its first character. */
    method CCat(str: seq<Byte>) returns (r: int)
      requires Usable() && use + |str| + 10 <= INT_MAX && (alloc != Immutable && str == [] ==> Terminated())
      modifies this, mem
      ensures Usable() && alloc == old(alloc) && (mem == old(mem) || fresh(mem))
      ensures alloc == Immutable ==> r == -1 && Contents() == old(Contents())
      ensures alloc != Immutable ==> r == 0 && Valid()
      ensures alloc != Immutable ==> exists kept :: 0 <= kept <= |str| && Contents() == old(Contents()) + str[kept..]
      ensures alloc != Immutable ==>
        (Contents() == old(Contents()) + str <==> |str| <= 1 || old(use + |str| - 1 + 10 < SizeAfterFirst()))
    {
      CheckCompat();
      if alloc == Immutable { return -1; }
      ghost var kept := FillAndFinish(str);
      r := 0;
    }

    method FillAndFinish(str: seq<Byte>) returns (ghost kept: nat)
      requires Sound() && alloc != Immutable && (str == [] ==> Terminated()) && use + |str| + 10 <= INT_MAX
      modifies this, mem
      ensures Valid() && alloc == old(alloc) && (mem == old(mem) || fresh(mem))
      ensures kept <= |str| && Contents() == old(Contents()) + str[kept..]
      ensures Contents() == old(Contents()) + str <==>
        |str| <= 1 || old(use + |str| - 1 + 10 < SizeAfterFirst())
    {
      ghost var content, use0 := Contents(), use;
      assert content + str[0..0] == content;
      kept := Fill(str, use0, content);
      Finish(use0);
      assert str[kept..] == str[kept..|str|];
      AppendsWhole(content, str, kept);
    }

    /** Terminates the content and brings the compatibility fields up to date. */
    method Finish(ghost u0: nat)
      requires Writing(u0) && use < size
      modifies mem, `compatUse, `compatSize
      ensures Valid() && Contents() == old(mem[start..start + use])
    {
      mem[start + use] := 0;
      UpdateCompat();
    }

    /** The size once the loop of xmlBufCCat has made room for the first character. */
    ghost function SizeAfterFirst(): nat
      reads this
      requires use <= size
    {
      if use + 10 >= size then ResizeTo(alloc, size, use, use + 10) else size
    }
  }
}
