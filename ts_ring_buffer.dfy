/** The ring buffer object: a byte buffer of `length` bytes that the source
    maps twice back to back, and two cursors that `Deposit` and `Get` move
    in place. Each method is proved against its step function in RingSpec,
    and keeps the ghost queue `contents` in step with the live bytes. */
module RingBuffer {
  import opened RingSpec

  class TSRingBuffer {
    var buffer: array<bv8>
    var length: int
    var read: int
    var write: int
    var granularity: int

    /** The elements deposited and not yet taken, oldest first. */
    ghost var contents: seq<seq<bv8>>

    /** The buffer's state as a value. */
    ghost function State(): Ring
      reads this, buffer
    {
      Ring(buffer[..], read, write, granularity, length)
    }

    /** The cursors keep their invariant and the bytes from `read` to
        `write` are `contents` laid end to end. */
    ghost predicate Valid()
      reads this, buffer
    {
      Holds(State(), contents)
    }

    /** The capacity rounding of `InitializeBuffer`: one page more than
        the requested size, less what the size already has past a page
        boundary. */
    static function RoundUpLength(size: int, pageSize: int): (length: int)
      requires 0 <= size && 0 < pageSize
      ensures length % pageSize == 0
      ensures size < length <= size + pageSize
      ensures size % pageSize == 0 ==> length == size + pageSize
    {
      assert size == pageSize * (size / pageSize) + size % pageSize;
      assert size + pageSize - size % pageSize == pageSize * (size / pageSize + 1);
      Arith.DivModUnique(size + pageSize - size % pageSize, pageSize, size / pageSize + 1, 0);
      size + pageSize - size % pageSize
    }

    /** The rounded length is the least multiple of the page size above
        the requested size. */
    static lemma RoundUpIsLeast(size: int, pageSize: int, m: int)
      requires 0 <= size && 0 < pageSize && size < m && m % pageSize == 0
      ensures RoundUpLength(size, pageSize) <= m
    {
      var k := size / pageSize;
      assert size == pageSize * k + size % pageSize;
      assert m == pageSize * (m / pageSize);
      if m / pageSize <= k {
        Arith.MulMonotone(m / pageSize, k, pageSize);
      } else {
        Arith.MulMonotone(k + 1, m / pageSize, pageSize);
      }
    }

    /** `InitializeBuffer(size)` for an element of `elementSize` bytes on a
        system whose allocation granularity is `pageSize`. Both cursors
        start at 0; the mapping is zero-filled. */
    constructor InitializeBuffer(size: int, pageSize: int, elementSize: int)
      requires 0 <= size && 0 < pageSize
      requires 2 * RoundUpLength(size, pageSize) < Int32Limit
      requires 0 < elementSize <= RoundUpLength(size, pageSize)
      ensures Valid() && fresh(buffer)
      ensures length == RoundUpLength(size, pageSize) && granularity == elementSize
      ensures read == 0 && write == 0 && contents == []
    {
      granularity := elementSize;
      length := RoundUpLength(size, pageSize);
      buffer := new bv8[RoundUpLength(size, pageSize)](_ => 0);
      read, write := 0, 0;
      contents := [];
      new;
      assert State() == Initial(length, granularity);
      InitialHoldsEmpty(length, granularity);
    }

    /** Copies `element` in at `write` and advances `write`, unless that
        would reach or lap `read`. */
    method Deposit(element: seq<bv8>) returns (ok: bool)
      requires Valid() && |element| == granularity
      modifies this, buffer
      ensures Valid() && buffer == old(buffer)
      ensures State() == RingSpec.Deposit(old(State()), element)
      ensures ok <==> |old(contents)| < Capacity(length, granularity)
      ensures contents == if ok then old(contents) + [element] else old(contents)
      ensures !ok ==> unchanged(this, buffer)
    {
      ghost var s := State();
      DepositRefines(s, contents, element);
      if (write < read && write + granularity >= read) || write + granularity - length >= read {
        return false;
      }
      // the element is copied in one go through the mirror
      CopyToRing(buffer, write, element);
      write := write + granularity;
      if write > length {
        write := write - length;
      }
      contents := contents + [element];
      ok := true;
    }

    /** Takes the oldest element: copies `granularity` bytes out at `read`
        and advances `read`. When the cursors meet, returns a default
        (all-zero) element and changes nothing. */
    method Get() returns (t: seq<bv8>)
      requires Valid()
      modifies this
      ensures Valid() && buffer == old(buffer) && write == old(write)
      ensures State() == RingSpec.Get(old(State())) && t == GetValue(old(State()))
      ensures old(contents) == [] ==> t == Zeros(granularity) && unchanged(this)
      ensures old(contents) != [] ==> t == old(contents)[0] && contents == old(contents)[1..]
    {
      ghost var s := State();
      GetRefines(s, contents);
      if read == write {
        return Zeros(granularity);  // a default-constructed element
      }
      // the element is copied out in one go through the mirror
      t := CopyFromRing(buffer, read, granularity);
      read := read + granularity;
      if read > length {
        read := read - length;
      }
      contents := contents[1..];
    }

    /** `memcpy` of `e` to virtual address `at` of the doubly mapped
        buffer: byte `k` lands on physical byte `(at + k) mod buf.Length`. */
    static method CopyToRing(buf: array<bv8>, at: int, e: seq<bv8>)
      requires 0 <= at <= buf.Length && |e| <= buf.Length
      modifies buf
      ensures buf[..] == CopyIn(old(buf[..]), at, e, buf.Length)
    {
      ghost var bytes := buf[..];
      var k := 0;
      while k < |e|
        invariant 0 <= k <= |e|
        invariant buf[..] == CopyIn(bytes, at, e[..k], buf.Length)
      {
        CopyInStep(bytes, at, e, k, buf.Length);
        buf[Wrap(at + k, buf.Length)] := e[k];
        k := k + 1;
      }
      assert e[..k] == e;
    }

    /** `memcpy` of `n` bytes out of virtual address `at` of the doubly
        mapped buffer into a fresh element. */
    static method CopyFromRing(buf: array<bv8>, at: int, n: int) returns (t: seq<bv8>)
      requires 0 <= at <= buf.Length && 0 <= n <= buf.Length
      ensures t == ReadBytes(buf[..], at, n, buf.Length)
    {
      var value := new bv8[n](_ => 0);
      var k := 0;
      while k < n
        invariant 0 <= k <= n
        invariant value[..] == ReadBytes(buf[..], at, k, buf.Length) + Zeros(n - k)
      {
        value[k] := buf[Wrap(at + k, buf.Length)];
        k := k + 1;
      }
      t := value[..];
    }

    /** Moves the reader to the writer, discarding every unread element. */
    method Reset()
      requires Valid()
      modifies this
      ensures Valid() && buffer == old(buffer) && write == old(write)
      ensures State() == RingSpec.Reset(old(State()))
      ensures read == write && contents == [] && !CanGet()
    {
      ResetRefines(State(), contents);
      read := write;
      contents := [];
    }

    /** Whether there is an element to get. */
    function CanGet(): (b: bool)
      requires Valid()
      reads this, buffer
      ensures b <==> contents != []
    {
      EmptyIffCursorsMeet(State(), contents);
      read != write
    }
  }
}
