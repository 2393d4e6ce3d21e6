/**
 * The ring buffer of iceoryx2-bb/container/src/queue.rs.
 *
 * `start` is the position at which the next element is written. It only ever
 * grows; every access reduces a position modulo the capacity. A cell of the
 * buffer is `None` while it holds no initialized value. What happens when the
 * 64-bit counter wraps around is the subject of `QueueWrap`.
 */
module Queue {
  import opened Prelude
  import Math

  class MetaQueue<T> {
    const buffer: array<Option<T>>
    var start: nat
    var len: nat
    /** The stored elements, oldest first. */
    ghost var contents: seq<T>

    /** The cell that a position falls into. */
    function Cell(p: nat): (c: nat)
      requires buffer.Length > 0
      ensures c < buffer.Length
    {
      p % buffer.Length
    }

    /** The last `len` written positions hold the contents; all other cells are uninitialized. */
    ghost predicate Valid()
      reads this, buffer
    {
      && |contents| == len <= buffer.Length
      && len <= start
      && (forall p {:trigger Cell(p)} :: start - len <= p < start ==>
            buffer[Cell(p)] == Some(contents[p - (start - len)]))
      && (forall p {:trigger Cell(p)} :: start <= p < start - len + buffer.Length ==> buffer[Cell(p)].None?)
    }

    constructor (capacity: nat)
      ensures Valid() && fresh(buffer)
      ensures buffer.Length == capacity && contents == []
    {
      buffer := new Option<T>[capacity](_ => None);
      start, len := 0, 0;
      contents := [];
    }

    method Push(value: T) returns (pushed: bool)
      requires Valid()
      modifies this, buffer
      ensures Valid()
      ensures pushed <==> |old(contents)| < buffer.Length
      ensures contents == if pushed then old(contents) + [value] else old(contents)
    {
      if len == buffer.Length {
        return false;
      }
      UncheckedPush(value);
      return true;
    }

    /** Never refuses: when full, exactly the oldest element makes room and is handed back. */
    method PushWithOverflow(value: T) returns (overridden: Option<T>)
      requires Valid() && buffer.Length > 0
      modifies this, buffer
      ensures Valid()
      ensures overridden.Some? <==> |old(contents)| == buffer.Length
      ensures overridden.Some? ==> old(contents) + [value] == [overridden.value] + contents
      ensures overridden.None? ==> contents == old(contents) + [value]
    {
      overridden := None;
      if len == buffer.Length {
        overridden := Pop();
      }
      UncheckedPush(value);
    }

    method UncheckedPush(value: T)
      requires Valid() && len < buffer.Length
      modifies this, buffer
      ensures Valid()
      ensures contents == old(contents) + [value]
    {
      var index := Cell(start);
      forall p | start - len <= p < start ensures Cell(p) != index {
        CellsDiffer(p, start);
      }
      forall p | start < p < start + buffer.Length - len ensures Cell(p) != index {
        CellsDiffer(start, p);
      }
      buffer[index] := Some(value);
      start := start + 1;
      len := len + 1;
      contents := contents + [value];
    }

    /** Reading the removed cell never touches an uninitialized value. */
    method Pop() returns (value: Option<T>)
      requires Valid()
      modifies this, buffer
      ensures Valid()
      ensures value == if old(contents) == [] then None else Some(old(contents)[0])
      ensures contents == if old(contents) == [] then [] else old(contents)[1..]
    {
      if len == 0 {
        return None;
      }
      var index := Cell(start - len);
      forall p | start - len < p < start - len + buffer.Length
        ensures Cell(p) != index
      {
        CellsDiffer(start - len, p);
      }
      NextLap(start - len);
      len := len - 1;
      value := buffer[index];
      buffer[index] := None;
      contents := contents[1..];
    }

    method Peek() returns (value: Option<T>)
      requires Valid()
      ensures value == if contents == [] then None else Some(contents[0])
    {
      if len == 0 {
        return None;
      }
      value := buffer[Cell(start - len)];
    }

    /** The `index`-th oldest element. */
    method Get(index: nat) returns (value: T)
      requires Valid() && index < len
      ensures value == contents[index]
    {
      value := buffer[Cell(start - len + index)].value;
    }

    method Clear()
      requires Valid()
      modifies this, buffer
      ensures Valid() && contents == []
      ensures forall c :: 0 <= c < buffer.Length ==> buffer[c].None?
    {
      var popped := Pop();
      while popped.Some?
        invariant Valid()
        invariant popped.None? ==> contents == []
        decreases len, popped.Some?
      {
        popped := Pop();
      }
      AllCellsVacant();
    }

    /** Positions less than a lap apart have different cells. */
    lemma CellsDiffer(p: nat, q: nat)
      requires p < q < p + buffer.Length
      ensures Cell(p) != Cell(q)
    {
      Math.ResiduesDiffer(p, q, buffer.Length);
    }

    lemma NextLap(p: nat)
      requires buffer.Length > 0
      ensures Cell(p + buffer.Length) == Cell(p)
    {
      Math.OneLapLater(p, buffer.Length);
    }

    lemma AllCellsVacant()
      requires Valid() && len == 0
      ensures forall c :: 0 <= c < buffer.Length ==> buffer[c].None?
    {
      forall c | 0 <= c < buffer.Length ensures buffer[c].None? {
        var p := Math.NextWithResidue(start, c, buffer.Length);
        assert Cell(p) == c;
      }
    }
  }
}
