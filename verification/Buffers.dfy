/** Truncating and counting output buffers: buffer, fixed_buffer_traits, iterator_buffer, counting_buffer. */
module Buffers {
  const BUFFER_SIZE: nat := 256

  function Min(a: nat, b: nat): nat {
    if a < b then a else b
  }

  /** What the buffer writes to when it is flushed: an output iterator, a memory area, or nothing. */
  datatype Kind = ToIterator | ToPointer | Counting

  /**
    buffer with the state of the derived class that overrides grow. `sink` is what an output
    iterator has received; `dest` the area of a pointer and `out` how far it is filled.
  */
  class Buffer {
    const kind: Kind
    const limit: nat
    const data: array<char>
    const dest: array<char>
    var ptr: array<char>
    var size: nat
    var capacity: nat
    var count: nat
    var out: nat
    var sink: string
    /** Everything that was ever appended, and what was in the area at first. */
    ghost var appended: string
    ghost const original: string

    ghost predicate Valid()
      reads this, data, dest
    {
      && data.Length == BUFFER_SIZE && data != dest && size <= capacity
      && |original| == dest.Length && count + size == |appended|
      && (ptr == dest ==> kind.ToPointer? && Direct())
      && (ptr != dest ==> ptr == data && capacity == BUFFER_SIZE && appended[count..] == data[..size])
      && (kind.ToIterator? ==> sink == appended[..Min(limit, count)])
      && (kind.ToPointer? ==> limit <= dest.Length && (ptr != dest ==> Scratch()))
    }

    /** Characters go straight to the area. */
    ghost predicate Direct()
      reads this, dest
    {
      && capacity == limit <= dest.Length && size <= capacity && count == 0 && out == 0
      && dest[..] == appended + original[Min(size, |original|)..]
    }

    /** The area is full; what comes now is only counted. */
    ghost predicate Scratch()
      reads this, dest
    {
      && count >= limit && out == limit <= dest.Length && |appended| >= limit && |original| == dest.Length
      && dest[..] == appended[..limit] + original[limit..]
    }

    constructor (kind: Kind, limit: nat, dest: array<char>)
      requires kind.ToPointer? ==> limit <= dest.Length
      ensures Valid() && appended == "" && original == dest[..]
      ensures this.kind == kind && this.limit == limit && this.dest == dest && fresh(data)
    {
      this.kind, this.limit, this.dest := kind, limit, dest;
      var scratch := new char[BUFFER_SIZE];
      data := scratch;
      ptr, capacity := if kind.ToPointer? then dest else scratch, if kind.ToPointer? then limit else BUFFER_SIZE;
      size, count, out, sink := 0, 0, 0, "";
      appended, original := "", dest[..];
    }

    /** fixed_buffer_traits::limit */
    method Limit(n: nat) returns (allowed: nat)
      modifies this`count
      ensures count == old(count) + n
      ensures old(count) + allowed == Min(limit, count) || (allowed == 0 && old(count) >= limit)
    {
      var left := if limit > count then limit - count else 0;
      count := count + n;
      allowed := if n < left then n else left;
    }

    /** What a flushed buffer has delivered: the first characters up to the limit, nothing behind them. */
    ghost predicate Delivered()
      reads this, dest
    {
      && size == 0 && count == |appended|
      && (kind.ToIterator? ==> sink == appended[..Min(limit, count)])
      && (kind.ToPointer? ==> out == Min(limit, count) <= dest.Length == |original|
                              && dest[..] == appended[..out] + original[out..])
    }

    /** flush of the two iterator_buffers. A direct area that is not full is not written to again. */
    method Flush()
      requires Valid() && !kind.Counting?
      modifies this`size, this`capacity, this`count, this`out, this`sink, this`ptr
      ensures Delivered() && appended == old(appended)
      ensures old(ptr == dest ==> size == capacity) ==> Valid() && capacity == BUFFER_SIZE
    {
      var n := size;
      if kind.ToIterator? {
        size := 0;
        var allowed := Limit(n);
        sink := sink + data[..allowed];
      } else {
        var allowed := Limit(n);
        if ptr == dest {
          out := out + allowed;
          ptr, capacity := data, BUFFER_SIZE;
        }
        size := 0;
      }
    }

    /** grow, as the derived class has it. */
    method Grow()
      requires Valid()
      modifies this`size, this`capacity, this`count, this`out, this`sink, this`ptr
      ensures Valid() && appended == old(appended) && size < capacity
    {
      if kind.ToIterator? {
        if size == BUFFER_SIZE { Flush(); }
      } else if kind.ToPointer? {
        if size == capacity { Flush(); }
      } else if size == BUFFER_SIZE {
        count := count + size;
        size := 0;
      }
    }

    method TryReserve(newCapacity: nat)
      requires Valid() && newCapacity > size
      modifies this`size, this`capacity, this`count, this`out, this`sink, this`ptr
      ensures Valid() && appended == old(appended) && size < capacity
    {
      if newCapacity > capacity { Grow(); }
    }

    method PushBack(c: char)
      requires Valid()
      modifies this, data, dest
      ensures Valid() && appended == old(appended) + [c]
    {
      TryReserve(size + 1);
      Store([c]);
    }

    /** Characters copied behind the last one, where there is room for them. */
    method Store(s: string)
      requires Valid() && size + |s| <= capacity
      modifies this`size, this`appended, ptr
      ensures Valid() && appended == old(appended) + s
    {
      forall i | 0 <= i < |s| { ptr[size + i] := s[i]; }
      size := size + |s|;
      appended := appended + s;
    }

    /** buffer::append, in as many pieces as it takes. */
    method Append(s: string)
      requires Valid()
      modifies this, data, dest
      ensures Valid() && appended == old(appended) + s
    {
      var begin := 0;
      while begin != |s|
        invariant begin <= |s| && Valid() && appended == old(appended) + s[..begin]
        decreases |s| - begin
      {
        var n := |s| - begin;
        TryReserve(size + n);
        var free := capacity - size;
        if free < n { n := free; }
        Store(s[begin..begin + n]);
        begin := begin + n;
      }
    }

    /** count */
    method Count() returns (n: nat)
      requires Valid() || Delivered()
      ensures n == |appended|
    {
      n := count + size;
    }
  }

  // ---------------------------------------------------------------- whole outputs

  datatype Operation = Push(c: char) | Put(s: string)

  /** All the characters of a sequence of operations. */
  function Text(operations: seq<Operation>): string {
    if operations == [] then ""
    else Text(operations[..|operations| - 1]) + match operations[|operations| - 1] case Push(c) => [c] case Put(s) => s
  }

  method Perform(b: Buffer, operations: seq<Operation>)
    requires b.Valid() && b.appended == ""
    modifies b, b.data, b.dest
    ensures b.Valid() && b.appended == Text(operations)
  {
    var i := 0;
    while i < |operations|
      invariant i <= |operations| && b.Valid() && b.appended == Text(operations[..i])
    {
      assert operations[..i + 1][..i] == operations[..i];
      match operations[i] {
        case Push(c) => b.PushBack(c);
        case Put(s) => b.Append(s);
      }
      i := i + 1;
    }
    assert operations[..|operations|] == operations;
  }

  /** vformat_to_n with a pointer: the first n characters and the size of the whole output. */
  method FormatToN(dest: array<char>, n: nat, operations: seq<Operation>) returns (end: nat, total: nat)
    requires n <= dest.Length
    modifies dest
    ensures total == |Text(operations)| && end == Min(n, total)
    ensures dest[..] == Text(operations)[..end] + old(dest[..])[end..]
  {
    var b := new Buffer(ToPointer, n, dest);
    Perform(b, operations);
    b.Flush();
    end := b.out;
    total := b.Count();
  }

  /** vformat_to_n with any other iterator. */
  method FormatToIterator(n: nat, operations: seq<Operation>) returns (received: string, total: nat)
    ensures total == |Text(operations)| && received == Text(operations)[..Min(n, total)]
  {
    var unused := new char[0];
    var b := new Buffer(ToIterator, n, unused);
    Perform(b, operations);
    b.Flush();
    received := b.sink;
    total := b.Count();
  }

  /** formatted_size */
  method FormattedSize(operations: seq<Operation>) returns (total: nat)
    ensures total == |Text(operations)|
  {
    var unused := new char[0];
    var b := new Buffer(Counting, 0, unused);
    Perform(b, operations);
    total := b.Count();
  }
}
