/** The window of mrp/src/window.rs as the object whose methods update it in place. */
module BufferWindows {
  import opened Common
  import opened Windows

  class BufferWindow<T> {
    var left: nat
    var data: seq<Option<T>>
    const capacityLimit: nat

    ghost function View(): Window<T>
      reads this
    {
      Window(left, data, capacityLimit)
    }

    ghost predicate Valid()
      reads this
    {
      View().Valid()
    }

    constructor (capacityLimit: nat, leftBounds: nat)
      requires leftBounds != 0
      requires capacityLimit != 0
      ensures Valid()
      ensures View() == Window(leftBounds, [], capacityLimit)
      ensures View().Contents() == map[]
    {
      this.left := leftBounds;
      this.data := [];
      this.capacityLimit := capacityLimit;
    }

    method GetPosition(seqnum: nat) returns (r: Result<nat, WindowError>)
      requires Valid()
      ensures r == GetPos(View(), seqnum)
      ensures r == Err(BeforeWindow) <==> seqnum < left
      ensures r == Ok(seqnum - left) <==> left <= seqnum < left + capacityLimit && seqnum <= U64_MAX
    {
      if seqnum < left { return Err(BeforeWindow); }
      var right := RightBounds();
      if seqnum > right { return Err(AfterWindow); }
      r := Ok(seqnum - left);
    }

    method RightBounds() returns (right: nat)
      requires Valid()
      ensures right == View().RightBounds()
      ensures right <= U64_MAX && right < left + capacityLimit
      ensures right == U64_MAX || right == left + capacityLimit - 1
    {
      // saturating_add
      right := left + (capacityLimit - 1);
      if right > U64_MAX { right := U64_MAX; }
    }

    method MaxSeenSeqnum() returns (s: nat)
      requires Valid()
      ensures s == View().Next() - 1
      ensures forall k :: k in View().Contents() ==> k <= s
      ensures s in View().Contents() || (s == left - 1 && data == [])
    {
      s := left + |data| - 1;
      if data != [] {
        assert data[s - left].Some?;
      }
    }

    /** The element at `seqnum`; the map has it exactly when the slot is filled. */
    method Get(seqnum: nat) returns (r: Option<T>)
      requires Valid()
      ensures r.Some? <==> seqnum in View().Contents() && seqnum <= View().RightBounds()
      ensures r.Some? ==> r.value == View().Contents()[seqnum]
    {
      var pos := GetPosition(seqnum);
      match pos {
        case Err(_) => r := None;
        case Ok(p) => r := if p < |data| then data[p] else None;
      }
    }

    /** Writes through the reference handed out by get_mut: the element at a filled slot is replaced. */
    method Replace(seqnum: nat, element: T)
      requires Valid()
      requires left <= seqnum < left + |data| && data[seqnum - left].Some?
      modifies this`data
      ensures Valid()
      ensures data == old(data)[seqnum - left := Some(element)]
    {
      data := data[seqnum - left := Some(element)];
    }

    method Put(seqnum: nat, element: T) returns (r: Result<(), WindowError>)
      requires Valid()
      modifies this`data
      ensures Valid()
      ensures r.Ok? <==> old(left) <= seqnum <= old(View()).RightBounds()
      ensures match Windows.Put(old(View()), seqnum, element)
              case Ok(w) => r == Ok(()) && View() == w
              case Err(e) => r == Err(e) && View() == old(View())
      ensures r.Ok? ==> View().Contents() == old(View()).Contents()[seqnum := element]
    {
      PutIsUpdate(View(), seqnum, element);
      var pos := GetPosition(seqnum);
      match pos {
        case Err(e) => return Err(e);
        case Ok(p) =>
          while |data| <= p
            invariant |data| <= p + 1 || data == old(data)
            invariant data == if |data| <= |old(data)| then old(data) else old(data) + Nones(|data| - |old(data)|)
          {
            data := data + [None];
          }
          data := data[p := Some(element)];
          r := Ok(());
      }
    }

    method DrainFront() returns (r: Option<(nat, seq<T>)>)
      requires Valid()
      modifies this`left, this`data
      ensures Valid()
      ensures var (w, out) := Windows.DrainFront(old(View()));
              && View() == w
              && r == (if out == [] then None else Some((w.left, out)))
      ensures left !in View().Contents()
    {
      DrainIsMaximalRun(View());
      if data == [] || data[0].None? {
        return None;
      }
      var index, elements := 0, [];
      while index < |data| && data[index].Some?
        invariant index <= |data|
        invariant forall i :: 0 <= i < index ==> data[i].Some?
        invariant |elements| == index
        invariant forall i :: 0 <= i < index ==> elements[i] == data[i].value
      {
        elements := elements + [data[index].value];
        index := index + 1;
      }
      assert index == FrontRun(data);
      assert elements == Values(data[..index]);
      data := data[index..];
      left := left + index;
      r := Some((left, elements));
    }

    method DropFront(numToDrop: nat) returns (newLeft: nat)
      requires Valid()
      modifies this`left, this`data
      ensures Valid()
      ensures View() == Windows.DropFront(old(View()), numToDrop)
      ensures newLeft == left == old(left) + numToDrop
    {
      DropRestricts(View(), numToDrop);
      var numToDrain := if |data| <= numToDrop then |data| else numToDrop;
      data := data[numToDrain..];
      left := left + numToDrop;
      newLeft := left;
    }
  }
}
