/** The iterator of a counted list, which parses its remaining items when it is dropped. */
module ReaderIterators {
  import opened Bits
  import opened Decoded
  import opened Leb128
  import opened Operators
  import opened Readers

  /** An item type is the way it is read off the front of a byte string. */
  type ItemReader<!T> = seq<byte> -> Decoded<T>

  ghost predicate StaysInside<T>(item: ItemReader<T>)
  {
    forall s :: item(s).used <= |s|
  }

  /** How far reading `n` items moves a reader: up to and including the first that fails. */
  ghost function DrainUsed<T>(item: ItemReader<T>, n: nat, s: seq<byte>): (used: nat)
    requires StaysInside(item)
    ensures used <= |s|
  {
    if n == 0 then 0
    else
      var d := item(s);
      d.used + (if d.Got? then DrainUsed(item, n - 1, s[d.used..]) else 0)
  }

  class BinaryReaderIter<T(0)> {
    const item: ItemReader<T>
    const reader: BinaryReader
    var remaining: nat

    constructor (item: ItemReader<T>, reader: BinaryReader, remaining: nat)
      requires StaysInside(item) && reader.Valid()
      ensures this.item == item && this.reader == reader && this.remaining == remaining
      ensures Valid()
    {
      this.item, this.reader, this.remaining := item, reader, remaining;
    }

    ghost predicate Valid()
      reads this, reader
    {
      StaysInside(item) && reader.Valid()
    }

    /** Where the reader will stand once this iterator is gone. */
    ghost function FinalPosition(): nat
      requires Valid()
      reads this, reader
    {
      reader.position + DrainUsed(item, remaining, reader.Rest())
    }

    method Next() returns (r: Option<Result<T>>)
      requires Valid()
      modifies this`remaining, reader`position
      ensures Valid() && FinalPosition() == old(FinalPosition())
      ensures r.None? <==> old(remaining) == 0
      ensures r.Some? ==>
                reader.Did(item(reader.buffer[old(reader.position)..]), old(reader.position), r.value) &&
                remaining == if r.value.Ok? then old(remaining) - 1 else 0
      ensures r.None? ==> remaining == 0 && reader.position == old(reader.position)
    {
      if remaining == 0 {
        return Option.None;
      }
      ghost var s, start := reader.Rest(), reader.position;
      var ret := ReadItem(reader, item);
      if ret.Err? {
        remaining := 0;
      } else {
        remaining := remaining - 1;
      }
      assert s[reader.position - start..] == reader.Rest();
      r := Some(ret);
    }

    method Drop()
      requires Valid()
      modifies this`remaining, reader`position
      ensures Valid() && reader.position == old(FinalPosition())
    {
      var r := Next();
      while r.Some?
        invariant Valid() && FinalPosition() == old(FinalPosition())
        invariant r.None? ==> remaining == 0
        decreases if r.Some? then 1 + remaining else 0
      {
        r := Next();
      }
    }
  }

  method ReadItem<T>(reader: BinaryReader, item: ItemReader<T>) returns (r: Result<T>)
    requires reader.Valid() && StaysInside(item)
    modifies reader`position
    ensures reader.Did(item(reader.buffer[old(reader.position)..]), old(reader.position), r)
  {
    var d := item(reader.Rest());
    r := Report(d, reader.OriginalPosition());
    reader.position := reader.position + d.used;
  }

  /** A counted list: a bounded size, then that many items. */
  method ReadIter<T(0)>(reader: BinaryReader, limit: int, item: ItemReader<T>) returns (r: Result<BinaryReaderIter<T>>)
    requires reader.Valid() && StaysInside(item)
    modifies reader`position
    ensures reader.Did(Forget(SizeAt(limit, reader.buffer[old(reader.position)..])), old(reader.position), Discard(r))
    ensures r.Ok? ==>
              fresh(r.value) && r.value.Valid() && r.value.reader == reader && r.value.item == item &&
              SizeAt(limit, reader.buffer[old(reader.position)..])
              == Got(r.value.remaining, reader.position - old(reader.position))
  {
    hide SizeAt;
    var size :- reader.ReadSize(limit);
    var iter := new BinaryReaderIter(item, reader, size);
    r := Ok(iter);
  }

  /** However many items the caller takes before dropping the iterator, the reader ends in the same place. */
  method TakeThenDrop<T(0)>(iter: BinaryReaderIter<T>, k: nat) returns (taken: seq<Result<T>>)
    requires iter.Valid()
    modifies iter`remaining, iter.reader`position
    ensures iter.reader.Valid() && |taken| <= k
    ensures iter.reader.position == old(iter.reader.position + DrainUsed(iter.item, iter.remaining, iter.reader.Rest()))
  {
    taken := [];
    for i := 0 to k
      invariant iter.Valid() && iter.FinalPosition() == old(iter.FinalPosition()) && |taken| <= i
    {
      var r := iter.Next();
      if r.None? {
        break;
      }
      taken := taken + [r.value];
    }
    iter.Drop();
  }

  /** Where `k` successful reads in succession lead. */
  ghost function After<T>(item: ItemReader<T>, k: nat, s: seq<byte>): (at: Option<nat>)
    requires StaysInside(item)
    ensures at.Some? ==> at.value <= |s|
  {
    if k == 0 then Some(0)
    else
      var p := After(item, k - 1, s);
      if p.None? then Option.None
      else
        var d := item(s[p.value..]);
        if d.Got? then Some(p.value + d.used) else Option.None
  }

  /** A drain of `n` items stops `used` bytes on: after all of them, or where the first that fails leaves the reader. */
  ghost predicate StopsAt<T>(item: ItemReader<T>, n: nat, s: seq<byte>, used: nat, k: nat)
    requires StaysInside(item)
  {
    && k <= n && After(item, k, s).Some?
    && var at := After(item, k, s).value;
       if k == n then used == at else item(s[at..]).Bad? && used == at + item(s[at..]).used
  }

  lemma {:induction false} DrainFrom<T>(item: ItemReader<T>, n: nat, s: seq<byte>, k: nat)
    requires StaysInside(item) && k <= n && After(item, k, s).Some?
    ensures DrainUsed(item, n, s) == After(item, k, s).value + DrainUsed(item, n - k, s[After(item, k, s).value..])
    decreases k
  {
    if k == 0 {
      assert s[0..] == s;
    } else {
      var p := After(item, k - 1, s).value;
      DrainFrom(item, n, s, k - 1);
      var d := item(s[p..]);
      assert s[p..][d.used..] == s[p + d.used..];
    }
  }

  /** For items of any kind: the final position is after all of them or where the first failing one left the reader. */
  lemma DrainExactly<T>(item: ItemReader<T>, n: nat, s: seq<byte>, used: nat)
    requires StaysInside(item)
    ensures used == DrainUsed(item, n, s) <==> exists k :: StopsAt(item, n, s, used, k)
  {
    forall k | StopsAt(item, n, s, used, k)
      ensures used == DrainUsed(item, n, s)
    {
      DrainFrom(item, n, s, k);
    }
    var k := LastRead(item, n, s);
  }

  lemma {:induction false} LastRead<T>(item: ItemReader<T>, n: nat, s: seq<byte>) returns (k: nat)
    requires StaysInside(item)
    ensures StopsAt(item, n, s, DrainUsed(item, n, s), k)
  {
    k := 0;
    while k < n && After(item, k + 1, s).Some?
      invariant k <= n && After(item, k, s).Some?
    {
      k := k + 1;
    }
    DrainFrom(item, n, s, k);
  }

  /** For integers that is where reading a vector of them ends, failures included. */
  lemma {:induction false} DrainIsVector(item: ItemReader<int>, n: nat, s: seq<byte>)
    requires StaysInside(item) && forall t :: item(t) == Unsigned(32, t)
    ensures DrainUsed(item, n, s) == VectorAt(n, s).used
  {
    hide Unsigned;
    if n > 0 && item(s).Got? {
      DrainIsVector(item, n - 1, s[item(s).used..]);
    }
  }
}
