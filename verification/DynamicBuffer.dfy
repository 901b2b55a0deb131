/** The growable buffer between a socket and a parser: two indices into a vector that is
    compacted or grown in place. It behaves as a first-in first-out queue of bytes. */
module DynamicBuffers {
  import Seqs
  import opened Bytes

  class DynamicBuffer {
    var readIndex: nat
    var writeIndex: nat
    const expandSize: nat
    var chars: array<byte>

    ghost predicate Valid()
      reads this, chars
    {
      && expandSize > 0
      && 0 < chars.Length
      && readIndex <= writeIndex <= chars.Length
      && (readIndex == writeIndex ==> readIndex == 0)
    }

    /** The bytes written and not yet read. */
    ghost function Contents(): (b: bytes)
      requires Valid()
      reads this, chars
      ensures |b| == writeIndex - readIndex
    {
      chars[readIndex..writeIndex]
    }

    constructor (expandSize: nat)
      requires expandSize > 0
      ensures Valid() && fresh(chars) && Contents() == []
    {
      this.expandSize := expandSize;
      readIndex, writeIndex := 0, 0;
      chars := new byte[1](_ => 0);
    }

    function DataBytes(): nat
      requires Valid()
      reads this, chars
    {
      writeIndex - readIndex
    }

    function AvailableBytes(): nat
      requires Valid()
      reads this, chars
    {
      chars.Length - writeIndex
    }

    function UselessBytes(): nat
      reads this
    {
      readIndex
    }

    /** The vector's bounds-checked element access at the read index never throws. */
    function ReadBegin(): (i: nat)
      requires Valid()
      reads this, chars
      ensures i < chars.Length
    {
      readIndex
    }

    method Read(size: nat)
      requires Valid() && size <= DataBytes()
      modifies this
      ensures Valid() && chars == old(chars)
      ensures Contents() == old(Contents())[size..]
      ensures AvailableBytes() >= old(AvailableBytes())
    {
      readIndex := readIndex + size;
      if readIndex == writeIndex {
        readIndex, writeIndex := 0, 0;
      }
    }

    /** Commits `size` bytes that were stored behind the write index. */
    method Write(size: nat)
      requires Valid() && size <= AvailableBytes()
      modifies this
      ensures Valid() && chars == old(chars)
      ensures Contents() == old(Contents()) + old(chars[writeIndex..writeIndex + size])
      ensures AvailableBytes() == old(AvailableBytes()) - size
    {
      writeIndex := writeIndex + size;
    }

    /** memmove to the front: source and destination may overlap. */
    method MoveToFront(from: nat, count: nat)
      requires from + count <= chars.Length
      modifies chars
      ensures chars[..count] == old(chars[from..from + count])
    {
      for i := 0 to count
        invariant chars[..i] == old(chars[from..from + i])
        invariant forall j :: i <= j < chars.Length ==> chars[j] == old(chars[j])
      {
        chars[i] := chars[from + i];
      }
    }

    method Resize(size: nat)
      requires size >= chars.Length
      modifies this`chars
      ensures chars.Length == size && chars[..old(chars.Length)] == old(chars[..])
      ensures size > old(chars.Length) ==> fresh(chars)
      ensures size == old(chars.Length) ==> chars == old(chars)
    {
      if size > chars.Length {
        var was := chars;
        var grown := new byte[size](_ => 0);
        for i := 0 to was.Length
          invariant grown[..i] == was[..i]
        {
          grown[i] := was[i];
        }
        chars := grown;
      }
    }

    /** The next size of the vector when compaction alone is not enough. */
    function GrownSize(size: nat): (n: nat)
      requires Valid()
      reads this, chars
      ensures n > chars.Length + size
    {
      var steps := size / expandSize + 1;
      assert steps * expandSize > size by {
        assert size == size / expandSize * expandSize + size % expandSize;
      }
      steps * expandSize + chars.Length
    }

    /** Moves the content to the front of a vector of the given size. */
    method Relocate(newSize: nat)
      requires Valid() && newSize >= chars.Length
      modifies this, chars
      ensures Valid() && (chars == old(chars) || fresh(chars))
      ensures Contents() == old(Contents()) && readIndex == 0 && chars.Length == newSize
    {
      ghost var content := Contents();
      var from, count := readIndex, DataBytes();
      ghost var was := chars[..];
      Resize(newSize);
      ghost var now := chars[..];
      assert now[..|was|] == was;
      SliceOfSlice(now, 0, |was|, from, from + count);
      assert chars[from..from + count] == now[from..from + count];
      MoveToFront(from, count);
      writeIndex := count;
      readIndex := 0;
    }

    /** Makes room for strictly more than `size` bytes, by compaction where that suffices,
        and keeps the content. */
    method Reserve(size: nat)
      requires Valid()
      modifies this, chars
      ensures Valid() && (chars == old(chars) || fresh(chars))
      ensures Contents() == old(Contents())
      ensures AvailableBytes() == chars.Length - writeIndex > size
      ensures old(chars.Length - writeIndex + readIndex) > size ==> chars.Length == old(chars.Length)
      ensures old(chars.Length - writeIndex + readIndex) <= size ==>
        chars.Length - old(chars.Length) == (size / expandSize + 1) * expandSize
      ensures old(chars.Length - writeIndex) > size ==> unchanged(this) && unchanged(chars)
      ensures old(chars.Length - writeIndex) <= size ==> readIndex == 0
    {
      if AvailableBytes() > size {
        return;
      }
      var newSize := chars.Length;
      if AvailableBytes() + UselessBytes() <= size {
        newSize := GrownSize(size);
      }
      Relocate(newSize);
    }

    /** What recv does with the memory behind the write index. */
    method Store(data: bytes)
      requires Valid() && |data| <= AvailableBytes()
      modifies chars
      ensures Valid() && Contents() == old(Contents())
      ensures chars[writeIndex..writeIndex + |data|] == data
    {
      for i := 0 to |data|
        invariant chars[writeIndex..writeIndex + i] == data[..i]
        invariant Contents() == old(Contents())
      {
        chars[writeIndex + i] := data[i];
      }
    }

    method ReadAllToString() returns (data: bytes)
      requires Valid()
      modifies this
      ensures Valid() && chars == old(chars)
      ensures data == old(Contents()) && Contents() == []
    {
      data := chars[readIndex..writeIndex];
      Read(DataBytes());
    }

    // -------------------------------------------------------------- typed access

    /** The common shape of the typed writes. */
    method WriteValue(v: nat, width: nat)
      requires Valid() && v < Pow256(width)
      modifies this, chars
      ensures Valid() && (chars == old(chars) || fresh(chars))
      ensures Contents() == old(Contents()) + LittleEndian(v, width)
    {
      Reserve(width);
      Store(LittleEndian(v, width));
      Write(width);
    }

    /** The common shape of the typed reads. */
    method ReadValue(width: nat) returns (ok: bool, v: nat)
      requires Valid()
      modifies this
      ensures Valid() && chars == old(chars)
      ensures ok == (|old(Contents())| >= width)
      ensures ok ==> v == FromLittleEndian(old(Contents())[..width]) && Contents() == old(Contents())[width..]
      ensures !ok ==> Contents() == old(Contents())
    {
      v := 0;
      if DataBytes() < width {
        return false, v;
      }
      assert chars[readIndex..readIndex + width] == Contents()[..width];
      v := FromLittleEndian(chars[readIndex..readIndex + width]);
      Read(width);
      ok := true;
    }

    /** The common shape of the typed peeks: a read at an offset that consumes nothing. */
    method PeekValue(width: nat, offset: nat) returns (ok: bool, v: nat)
      requires Valid()
      ensures ok == (|Contents()| >= width + offset)
      ensures ok ==> v == FromLittleEndian(Contents()[offset..offset + width])
    {
      v := 0;
      if DataBytes() < width + offset {
        return false, v;
      }
      var at := readIndex + offset;
      ghost var all := chars[..];
      assert all[at..at + width] == all[readIndex..writeIndex][offset..offset + width];
      v := FromLittleEndian(chars[at..at + width]);
      ok := true;
    }
  }

  // ---------------------------------------------------------------- typed queues

  datatype Value = Value(v: nat, width: nat)

  predicate Fits(x: Value) {
    x.v < Pow256(x.width)
  }

  /** The content that writing `xs` adds. */
  function Written(xs: seq<Value>): bytes {
    if xs == [] then [] else LittleEndian(xs[0].v, xs[0].width) + Written(xs[1..])
  }

  /** The values that reads of the given widths return, and the content they leave. */
  function ReadBack(b: bytes, widths: seq<nat>): (seq<nat>, bytes) {
    if widths == [] || |b| < widths[0] then ([], b)
    else
      var (vs, rest) := ReadBack(b[widths[0]..], widths[1..]);
      ([FromLittleEndian(b[..widths[0]])] + vs, rest)
  }

  function Widths(xs: seq<Value>): seq<nat> {
    seq(|xs|, i requires 0 <= i < |xs| => xs[i].width)
  }

  function Values(xs: seq<Value>): seq<nat> {
    seq(|xs|, i requires 0 <= i < |xs| => xs[i].v)
  }

  lemma WrittenFront(xs: seq<Value>, rest: bytes)
    requires xs != []
    ensures var (b, w) := (Written(xs) + rest, xs[0].width);
            w <= |b| && b[..w] == LittleEndian(xs[0].v, w) && b[w..] == Written(xs[1..]) + rest
  {
    hide LittleEndian;
    var front := LittleEndian(xs[0].v, xs[0].width);
    Seqs.Assoc(front, Written(xs[1..]), rest);
    Seqs.Cut(front, Written(xs[1..]) + rest);
  }

  lemma FieldsFront(xs: seq<Value>)
    requires xs != []
    ensures Widths(xs) == [xs[0].width] + Widths(xs[1..])
    ensures Values(xs) == [xs[0].v] + Values(xs[1..])
  {
  }

  lemma ReadBackStep(b: bytes, w: nat, widths: seq<nat>)
    requires w <= |b|
    ensures var (vs, rest) := ReadBack(b[w..], widths);
            ReadBack(b, [w] + widths) == ([FromLittleEndian(b[..w])] + vs, rest)
  {
  }

  /** Typed writes come back in order through reads of the same widths, and nothing else is consumed. */
  lemma {:induction false} TypedQueue(xs: seq<Value>, rest: bytes)
    requires forall i :: 0 <= i < |xs| ==> Fits(xs[i])
    ensures ReadBack(Written(xs) + rest, Widths(xs)) == (Values(xs), rest)
    decreases |xs|
  {
    if xs == [] {
      assert Written(xs) + rest == rest && Values(xs) == [] && Widths(xs) == [];
    } else {
      hide LittleEndian;
      hide FromLittleEndian;
      hide Written;
      hide ReadBack;
      hide Widths;
      hide Values;
      LittleEndianRoundTrip(xs[0].v, xs[0].width);
      WrittenFront(xs, rest);
      FieldsFront(xs);
      ReadBackStep(Written(xs) + rest, xs[0].width, Widths(xs[1..]));
      TypedQueue(xs[1..], rest);
    }
  }

  lemma {:induction false} WrittenLast(xs: seq<Value>, x: Value)
    ensures Written(xs + [x]) == Written(xs) + LittleEndian(x.v, x.width)
    decreases |xs|
  {
    var last := LittleEndian(x.v, x.width);
    if xs == [] {
      assert [] + [x] == [x] && [x][1..] == [];
      Seqs.NoMore(last);
    } else {
      assert (xs + [x])[1..] == xs[1..] + [x];
      WrittenLast(xs[1..], x);
      Seqs.Assoc(LittleEndian(xs[0].v, xs[0].width), Written(xs[1..]), last);
    }
  }

  /** A caller's typed writes, one after the other. */
  method WriteAll(b: DynamicBuffer, xs: seq<Value>)
    requires b.Valid() && forall i :: 0 <= i < |xs| ==> Fits(xs[i])
    modifies b, b.chars
    ensures b.Valid() && (b.chars == old(b.chars) || fresh(b.chars))
    ensures b.Contents() == old(b.Contents()) + Written(xs)
  {
    Seqs.NoMore(b.Contents());
    for i := 0 to |xs|
      invariant b.Valid() && (b.chars == old(b.chars) || fresh(b.chars))
      invariant b.Contents() == old(b.Contents()) + Written(xs[..i])
    {
      WrittenLast(xs[..i], xs[i]);
      assert xs[..i + 1] == xs[..i] + [xs[i]];
      Seqs.Assoc(old(b.Contents()), Written(xs[..i]), LittleEndian(xs[i].v, xs[i].width));
      b.WriteValue(xs[i].v, xs[i].width);
    }
    assert xs[..|xs|] == xs;
  }

  /** The values read so far, and those that the rest of the content and of the widths still gives. */
  ghost predicate ReadSoFar(vs: seq<nat>, b: bytes, widths: seq<nat>, whole: (seq<nat>, bytes)) {
    (vs + ReadBack(b, widths).0, ReadBack(b, widths).1) == whole
  }

  lemma ReadOne(vs: seq<nat>, b: bytes, widths: seq<nat>, whole: (seq<nat>, bytes))
    requires ReadSoFar(vs, b, widths, whole) && widths != [] && |b| >= widths[0]
    ensures ReadSoFar(vs + [FromLittleEndian(b[..widths[0]])], b[widths[0]..], widths[1..], whole)
  {
    var v := FromLittleEndian(b[..widths[0]]);
    Seqs.Assoc(vs, [v], ReadBack(b[widths[0]..], widths[1..]).0);
  }

  lemma ReadNone(b: bytes, widths: seq<nat>)
    ensures ReadSoFar([], b, widths[0..], ReadBack(b, widths))
  {
    assert widths[0..] == widths;
    assert [] + ReadBack(b, widths).0 == ReadBack(b, widths).0;
  }

  lemma ReadEnds(vs: seq<nat>, b: bytes, widths: seq<nat>, whole: (seq<nat>, bytes))
    requires ReadSoFar(vs, b, widths, whole) && (widths == [] || |b| < widths[0])
    ensures (vs, b) == whole
  {
    Seqs.NoMore(vs);
  }

  /** A caller's typed reads, until one fails. */
  method ReadAll(b: DynamicBuffer, widths: seq<nat>) returns (vs: seq<nat>)
    requires b.Valid()
    modifies b
    ensures b.Valid() && b.chars == old(b.chars)
    ensures (vs, b.Contents()) == ReadBack(old(b.Contents()), widths)
  {
    hide ReadBack;
    hide ReadSoFar;
    vs := [];
    ghost var whole := ReadBack(b.Contents(), widths);
    ReadNone(b.Contents(), widths);
    var i := 0;
    while i < |widths|
      invariant i <= |widths| && b.Valid() && b.chars == old(b.chars)
      invariant ReadSoFar(vs, b.Contents(), widths[i..], whole)
    {
      ghost var content := b.Contents();
      var ok, v := b.ReadValue(widths[i]);
      if !ok {
        ReadEnds(vs, content, widths[i..], whole);
        return;
      }
      ReadOne(vs, content, widths[i..], whole);
      assert widths[i..][1..] == widths[i + 1..];
      vs := vs + [v];
      i := i + 1;
    }
    ReadEnds(vs, b.Contents(), widths[i..], whole);
  }

  /** An empty buffer gives back what was written, in order, whatever is written behind it. */
  method PassThrough(b: DynamicBuffer, xs: seq<Value>, more: seq<Value>) returns (vs: seq<nat>)
    requires b.Valid() && b.Contents() == []
    requires (forall i :: 0 <= i < |xs| ==> Fits(xs[i])) && (forall i :: 0 <= i < |more| ==> Fits(more[i]))
    modifies b, b.chars
    ensures b.Valid() && vs == Values(xs) && b.Contents() == Written(more)
  {
    WriteAll(b, xs);
    assert [] + Written(xs) == Written(xs);
    WriteAll(b, more);
    TypedQueue(xs, Written(more));
    vs := ReadAll(b, Widths(xs));
  }
}
