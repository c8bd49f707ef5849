/** The growable stream buffer: one array, with the get and put pointers as offsets into it. */
module StreamBuf {
  import opened Packets

  const BUFFER_DELTA := 128
  const INT_LIMIT := 0x8000_0000

  function Min(a: nat, b: nat): nat {
    if a < b then a else b
  }

  function Max(a: nat, b: nat): nat {
    if a > b then a else b
  }

  /** Addresses are 64 bits wide. */
  const ADDRESS_LIMIT := 0x1_0000_0000_0000_0000

  /** What a cast to a signed 32-bit integer makes of a count. */
  function ToInt(n: nat): int {
    if n % (2 * INT_LIMIT) < INT_LIMIT then n % (2 * INT_LIMIT) else n % (2 * INT_LIMIT) - 2 * INT_LIMIT
  }

  /** How far the get pointer moves to consume `n` characters, when it points to address
      `get` and the contents end at address `put`: the sum of pointer and count wraps. */
  function Moved(get: nat, put: nat, n: nat): int
    requires get <= put
  {
    ToInt(if (get + n) % ADDRESS_LIMIT > put then put - get else n)
  }

  /** The count is clamped to the contents, so that consuming removes as many characters as
      there are of `n`, exactly when fewer than 2^31 are to go and the sum does not wrap, or
      the 32 bits kept of the count happen to be their number. */
  lemma ConsumeIsClamped(get: nat, put: nat, n: nat)
    requires get <= put < ADDRESS_LIMIT && n < ADDRESS_LIMIT
    ensures Moved(get, put, n) == Min(n, put - get) <==>
            Min(n, put - get) < INT_LIMIT && (get + n < ADDRESS_LIMIT || n % (2 * INT_LIMIT) == put - get)
  {
    if get + n >= ADDRESS_LIMIT {
      assert (get + n) % ADDRESS_LIMIT == get + n - ADDRESS_LIMIT;
    }
  }

  /** The largest count, which should remove everything, moves the get pointer back by one. */
  lemma ConsumeAllMovesBack(get: nat, put: nat)
    requires 0 < get <= put < ADDRESS_LIMIT
    ensures Moved(get, put, ADDRESS_LIMIT - 1) == -1
  {
    assert (get + (ADDRESS_LIMIT - 1)) % ADDRESS_LIMIT == get - 1;
  }

  /** What reading or writing one character gives; `EndOfFile` is the traits' eof. */
  datatype Character = EndOfFile | Char(value: byte)

  class BasicStreamBuf {
    const maxSize: nat
    var buffer: array<byte>
    var eback: nat
    var gptr: nat
    var egptr: nat
    var pptr: nat
    var epptr: nat
    /** Every character ever committed or overflowed, and how many were consumed. */
    ghost var written: seq<byte>
    ghost var consumed: nat

    /** The put area ends within the maximum size, so the contents never exceed it. */
    ghost predicate Shaped()
      reads this
    {
      && eback <= gptr <= egptr <= pptr <= epptr <= buffer.Length
      && epptr <= maxSize
      && buffer.Length == Max(epptr, 1)
    }

    /** The characters between the get and put pointers are those written and not yet
        consumed, in order. */
    ghost predicate Valid()
      reads this, buffer
    {
      && Shaped()
      && consumed <= |written|
      && buffer[gptr..pptr] == written[consumed..]
    }

    ghost function Contents(): seq<byte>
      reads this, buffer
      requires Shaped()
    {
      buffer[gptr..pptr]
    }

    constructor (maximumSize: nat)
      ensures Valid() && fresh(buffer) && maxSize == maximumSize
      ensures Contents() == [] && written == [] && consumed == 0
      ensures gptr == pptr == 0 && epptr == Min(maximumSize, 128)
    {
      var pend := Min(maximumSize, BUFFER_DELTA);
      maxSize := maximumSize;
      buffer := new byte[Max(pend, 1)](_ => 0);
      eback, gptr, egptr := 0, 0, 0;
      pptr, epptr := 0, pend;
      written, consumed := [], 0;
    }

    function Size(): (n: nat)
      reads this, buffer
      requires Valid()
      ensures n == |Contents()| && n <= maxSize
    {
      pptr - gptr
    }

    // ---- The base class's pointer setters ---------------------------------

    method SetG(b: nat, n: nat, e: nat)
      modifies this`eback, this`gptr, this`egptr
      ensures eback == b && gptr == n && egptr == e
    {
      eback, gptr, egptr := b, n, e;
    }

    // ---- Making room ------------------------------------------------------

    /** `memmove` of the contents to the start of the buffer. */
    method ShiftDown(from: nat, count: nat)
      requires from + count <= buffer.Length
      modifies buffer
      ensures buffer[..count] == old(buffer[from..from + count])
    {
      for i := 0 to count
        invariant forall k | 0 <= k < i :: buffer[k] == old(buffer[from + k])
        invariant forall k | i <= k < buffer.Length :: buffer[k] == old(buffer[k])
      {
        buffer[i] := buffer[from + i];
      }
    }

    /** `vector::resize` to a larger size. */
    method Resize(length: nat)
      requires length >= buffer.Length
      modifies this`buffer
      ensures fresh(buffer) && buffer.Length == length
      ensures buffer[..old(buffer.Length)] == old(buffer[..])
    {
      var smaller := buffer;
      var bigger := new byte[length](_ => 0);
      for i := 0 to smaller.Length
        invariant forall k | 0 <= k < i :: bigger[k] == smaller[k]
      {
        bigger[i] := smaller[i];
      }
      buffer := bigger;
    }

    /** Makes room for `n` more characters. Returns false for the length error. */
    method Reserve(n: nat) returns (ok: bool)
      requires Valid()
      modifies this`buffer, this`eback, this`gptr, this`egptr, this`pptr, this`epptr, buffer
      ensures ok <==> old(pptr - gptr) + n <= maxSize
      ensures buffer == old(buffer) || fresh(buffer)
      ensures ok ==> Valid() && Contents() == old(Contents()) && n <= epptr - pptr
      ensures ok ==> epptr == Max(old(epptr), if n <= old(epptr - pptr) then 0 else old(pptr - gptr) + n)
    {
      var gnext, pnext, pend := gptr, pptr, epptr;
      if n <= pend - pnext {
        return true;
      }
      ghost var contents := Contents();
      if gnext > 0 {
        pnext := pnext - gnext;
        ShiftDown(gnext, pnext);
      }
      assert buffer[..pnext] == contents;
      if n > pend - pnext {
        if n <= maxSize && pnext <= maxSize - n {
          pend := pnext + n;
          ghost var before := buffer[..];
          Resize(Max(pend, 1));
          assert buffer[..pnext] == before[..pnext];
        } else {
          return false;
        }
      }
      SetG(0, 0, pnext);
      pptr, epptr := pnext, pend;
      return true;
    }

    // ---- The public operations --------------------------------------------

    /** Makes the next `n` characters of the put area writable. Returns false for the length
        error, thrown exactly when the contents and `n` more exceed the maximum. */
    method Prepare(n: nat) returns (ok: bool)
      requires Valid()
      modifies this`buffer, this`eback, this`gptr, this`egptr, this`pptr, this`epptr, buffer
      ensures ok <==> old(Size()) + n <= maxSize
      ensures buffer == old(buffer) || fresh(buffer)
      ensures ok ==> Valid() && Contents() == old(Contents()) && n <= epptr - pptr
    {
      ok := Reserve(n);
    }

    /** The caller writes into the prepared characters. */
    method Fill(at: nat, bytes: seq<byte>)
      requires Valid() && at + |bytes| <= epptr - pptr
      modifies buffer
      ensures Valid() && Contents() == old(Contents())
      ensures buffer[pptr + at..pptr + at + |bytes|] == bytes
      ensures forall k | pptr <= k < epptr && !(pptr + at <= k < pptr + at + |bytes|) :: buffer[k] == old(buffer[k])
    {
      for i := 0 to |bytes|
        invariant forall k | 0 <= k < i :: buffer[pptr + at + k] == bytes[k]
        invariant forall k | 0 <= k < buffer.Length && !(pptr + at <= k < pptr + at + i) :: buffer[k] == old(buffer[k])
      {
        buffer[pptr + at + i] := bytes[i];
      }
    }

    /** Appends characters of the put area to the contents, as many as there are of `n`.
        The move is made through a signed 32-bit count. */
    method Commit(n: nat)
      requires Valid() && Min(n, epptr - pptr) < INT_LIMIT
      modifies this`eback, this`gptr, this`egptr, this`pptr, this`written
      ensures Valid()
      ensures var m := Min(n, old(epptr - pptr));
              && Contents() == old(Contents()) + buffer[old(pptr)..old(pptr) + m]
              && written == old(written) + buffer[old(pptr)..old(pptr) + m]
    {
      var m := Min(n, epptr - pptr);
      written := written + buffer[pptr..pptr + m];
      assert buffer[gptr..pptr + m] == buffer[gptr..pptr] + buffer[pptr..pptr + m];
      pptr := pptr + m;
      SetG(eback, gptr, pptr);
    }

    /** Removes `n` characters from the front, or all of them. `base` is the address of the buffer. */
    method Consume(n: nat, base: nat)
      requires Valid() && Min(n, pptr - gptr) < INT_LIMIT
      requires base + buffer.Length < ADDRESS_LIMIT && base + gptr + n < ADDRESS_LIMIT
      modifies this`eback, this`gptr, this`egptr, this`consumed
      ensures Valid()
      ensures Contents() == old(Contents())[Min(n, |old(Contents())|)..]
      ensures consumed == old(consumed) + Min(n, |old(Contents())|)
    {
      if egptr < pptr {
        SetG(0, gptr, pptr);
      }
      var moved := Clamped(n, base);
      Bump(moved);
    }

    /** The count that is consumed, clamped by comparing addresses and cast. */
    method Clamped(n: nat, base: nat) returns (moved: int)
      requires gptr <= pptr && Min(n, pptr - gptr) < INT_LIMIT
      requires base + pptr < ADDRESS_LIMIT && base + gptr + n < ADDRESS_LIMIT
      ensures moved == Moved(base + gptr, base + pptr, n) == Min(n, pptr - gptr)
    {
      ConsumeIsClamped(base + gptr, base + pptr, n);
      var m := n;
      if (base + gptr + n) % ADDRESS_LIMIT > base + pptr {
        m := pptr - gptr;
      }
      moved := ToInt(m);
    }

    /** `gbump`, over characters that are there. */
    method Bump(n: int)
      requires Valid() && 0 <= n <= pptr - gptr && pptr == egptr
      modifies this`gptr, this`consumed
      ensures Valid() && gptr == old(gptr) + n
      ensures Contents() == old(Contents())[n..] && consumed == old(consumed) + n
    {
      consumed := consumed + n;
      assert buffer[gptr + n..pptr] == buffer[gptr..pptr][n..];
      gptr := gptr + n;
    }

    /** The next character, which stays in the buffer. */
    method Underflow() returns (r: Character)
      requires Valid()
      modifies this`eback, this`gptr, this`egptr
      ensures Valid() && Contents() == old(Contents())
      ensures r == if Contents() == [] then EndOfFile else Char(Contents()[0])
      ensures Contents() != [] ==> egptr == pptr
    {
      if gptr < pptr {
        SetG(0, gptr, pptr);
        return Char(buffer[gptr]);
      }
      return EndOfFile;
    }

    /** Appends one character. Returns false for the length error, thrown exactly when the
        contents already have the maximum size. */
    method Overflow(c: Character) returns (ok: bool, r: Character)
      requires Valid()
      modifies this`buffer, this`eback, this`gptr, this`egptr, this`pptr, this`epptr, this`written, buffer
      ensures ok <==> c.EndOfFile? || old(Size()) < maxSize
      ensures buffer == old(buffer) || fresh(buffer)
      ensures ok ==>
                && Valid() && r.Char? && (c.Char? ==> r == c)
                && Contents() == old(Contents()) + (if c.Char? then [c.value] else [])
                && written == old(written) + (if c.Char? then [c.value] else [])
    {
      if c.EndOfFile? {
        return true, Char(0);
      }
      ok := true;
      if pptr == epptr {
        ok := ReserveSome();
      }
      if ok {
        PutChar(c.value);
      }
      r := c;
    }

    /** The room made when the put area is full: 128 characters, or what the maximum still allows. */
    method ReserveSome() returns (ok: bool)
      requires Valid() && pptr == epptr
      modifies this`buffer, this`eback, this`gptr, this`egptr, this`pptr, this`epptr, buffer
      ensures ok <==> old(Size()) < maxSize
      ensures buffer == old(buffer) || fresh(buffer)
      ensures ok ==> Valid() && Contents() == old(Contents()) && pptr < epptr
    {
      var bufferSize := pptr - gptr;
      if bufferSize < maxSize && maxSize - bufferSize < BUFFER_DELTA {
        ok := Reserve(maxSize - bufferSize);
      } else {
        ok := Reserve(BUFFER_DELTA);
      }
    }

    method PutChar(value: byte)
      requires Valid() && pptr < epptr
      modifies this`pptr, this`written, buffer
      ensures Valid()
      ensures Contents() == old(Contents()) + [value] && written == old(written) + [value]
    {
      ghost var contents := Contents();
      buffer[pptr] := value;
      pptr := pptr + 1;
      written := written + [value];
      assert buffer[gptr..pptr] == contents + [value];
    }
  }
}
