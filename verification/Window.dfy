/**
 * The sliding window of mrp/src/window.rs as a value (`Window`), and the partial
 * map from sequence numbers to elements that it stands for (`Contents`).
 */
module Windows {
  import opened Common

  datatype WindowError = BeforeWindow | AfterWindow

  /** `data[i]` is the slot of sequence number `left + i`. */
  datatype Window<T> = Window(left: nat, data: seq<Option<T>>, cap: nat) {

    function RightBounds(): int {
      if left + cap - 1 <= U64_MAX then left + cap - 1 else U64_MAX
    }

    /** One more than the highest sequence number stored or already passed. */
    function Next(): nat {
      left + |data|
    }

    predicate IsFull() {
      |data| == cap
    }

    /** What every operation keeps: bounded, and never an empty slot at the right end. */
    ghost predicate Valid() {
      && 1 <= left
      && 1 <= cap
      && |data| <= cap
      && (data != [] ==> data[|data| - 1].Some?)
    }

    predicate Has(s: nat) {
      left <= s < left + |data| && data[s - left].Some?
    }

    /** The partial map the window stands for. */
    ghost function Contents(): map<nat, T> {
      map s: nat | left <= s < left + |data| && Has(s) :: data[s - left].value
    }

    /** A window used as a queue: no empty slot at all. */
    ghost predicate NoHoles() {
      forall i :: 0 <= i < |data| ==> data[i].Some?
    }
  }

  function Nones<T>(n: nat): (r: seq<Option<T>>)
    ensures |r| == n
    ensures forall i :: 0 <= i < n ==> r[i] == None
  {
    seq(n, i => None)
  }

  function GetPos<T>(w: Window<T>, s: nat): Result<nat, WindowError> {
    if s < w.left then Err(BeforeWindow)
    else if s > w.RightBounds() then Err(AfterWindow)
    else Ok(s - w.left)
  }

  function Put<T>(w: Window<T>, s: nat, e: T): Result<Window<T>, WindowError> {
    match GetPos(w, s)
    case Err(err) => Err(err)
    case Ok(pos) =>
      Ok(w.(data := if pos < |w.data| then w.data[pos := Some(e)]
                    else w.data + Nones(pos - |w.data|) + [Some(e)]))
  }

  /** Number of leading filled slots. */
  function FrontRun<T>(data: seq<Option<T>>): (n: nat)
    ensures n <= |data|
    ensures forall i :: 0 <= i < n ==> data[i].Some?
    ensures n < |data| ==> data[n].None?
  {
    if data == [] || data[0].None? then 0 else 1 + FrontRun(data[1..])
  }

  function Values<T>(data: seq<Option<T>>): (r: seq<T>)
    requires forall i :: 0 <= i < |data| ==> data[i].Some?
    ensures |r| == |data|
    ensures forall i :: 0 <= i < |data| ==> r[i] == data[i].value
  {
    seq(|data|, i requires 0 <= i < |data| => data[i].value)
  }

  /** The leading run, removed from the window; empty when the first slot is missing or empty. */
  function DrainFront<T>(w: Window<T>): (Window<T>, seq<T>) {
    var n := FrontRun(w.data);
    (w.(left := w.left + n, data := w.data[n..]), Values(w.data[..n]))
  }

  function DropFront<T>(w: Window<T>, n: nat): Window<T> {
    w.(left := w.left + n, data := w.data[if n <= |w.data| then n else |w.data|..])
  }

  /** put is map update exactly inside the bounds, and refuses on the right side of them. */
  lemma PutIsUpdate<T>(w: Window<T>, s: nat, e: T)
    requires w.Valid()
    ensures Put(w, s, e).Ok? <==> w.left <= s <= w.RightBounds()
    ensures Put(w, s, e).Ok? <==> w.left <= s < w.left + w.cap && s <= U64_MAX
    ensures Put(w, s, e) == Err(BeforeWindow) <==> s < w.left
    ensures Put(w, s, e) == Err(AfterWindow) <==> w.left <= s && (w.left + w.cap <= s || U64_MAX < s)
    ensures Put(w, s, e).Ok? ==>
              var w' := Put(w, s, e).value;
              && w'.Valid()
              && w'.left == w.left
              && w'.cap == w.cap
              && w'.Contents() == w.Contents()[s := e]
              && w'.Next() == if s < w.Next() then w.Next() else s + 1
  {
    if Put(w, s, e).Ok? { PutContents(w, s, e, Put(w, s, e).value); }
  }

  lemma PutContents<T>(w: Window<T>, s: nat, e: T, w': Window<T>)
    requires w'.left == w.left <= s && |w'.data| == if s < w.Next() then |w.data| else s + 1 - w.left
    requires w'.Has(s) && w'.data[s - w.left].value == e
    requires forall i :: 0 <= i < |w'.data| && i != s - w.left ==> w'.data[i] == if i < |w.data| then w.data[i] else None
    ensures w'.Contents() == w.Contents()[s := e]
  {
    forall k: nat ensures w'.Has(k) <==> w.Has(k) || k == s {}
    assert w'.Contents().Keys == w.Contents()[s := e].Keys;
  }

  /** The part of a map from `s` on. */
  ghost function From<T>(c: map<nat, T>, s: nat): map<nat, T> {
    map k | k in c && s <= k :: c[k]
  }

  /** `w` is what is left of the map `c` once the consecutive run `out` from `left` has been taken. */
  ghost predicate RunTaken<T>(c: map<nat, T>, left: nat, out: seq<T>, w: Window<T>) {
    && w.Valid()
    && w.left == left + |out|
    && w.left !in c
    && (forall i :: 0 <= i < |out| ==> RunAt(c, left, out, i))
    && w.Contents() == From(c, w.left)
  }

  ghost predicate RunAt<T>(c: map<nat, T>, left: nat, out: seq<T>, i: nat) {
    i < |out| && left + i in c && c[left + i] == out[i]
  }

  /** drain_front takes the maximal consecutive run from the left bound, and only that. */
  lemma DrainIsMaximalRun<T>(w: Window<T>)
    requires w.Valid()
    ensures var (w', out) := DrainFront(w);
            && RunTaken(w.Contents(), w.left, out, w')
            && w'.cap == w.cap
            && w'.Next() == w.Next()
            && (out == [] <==> w.left !in w.Contents())
  {
    FrontRunTaken(w, FrontRun(w.data), DrainFront(w).1, DrainFront(w).0);
  }

  /** The first `n` slots are filled and the one after them is not. */
  ghost predicate RunIs<T>(w: Window<T>, n: nat) {
    && n <= |w.data|
    && (forall i :: 0 <= i < n ==> w.data[i].Some?)
    && (n < |w.data| ==> w.data[n].None?)
  }

  lemma FrontRunTaken<T>(w: Window<T>, n: nat, out: seq<T>, w': Window<T>)
    requires w.Valid() && RunIs(w, n) && out == Values(w.data[..n]) && w' == w.(left := w.left + n, data := w.data[n..])
    ensures RunTaken(w.Contents(), w.left, out, w') && w'.cap == w.cap && w'.Next() == w.Next()
    ensures out == [] <==> w.left !in w.Contents()
  {
    RunEndsAtGap(w, n);
    DrainedAreStored(w, n);
    SuffixRestricts(w, n);
  }

  lemma RunEndsAtGap<T>(w: Window<T>, n: nat)
    requires w.Valid() && RunIs(w, n)
    ensures w.left + n !in w.Contents()
    ensures n == 0 <==> w.left !in w.Contents()
    ensures w.(left := w.left + n, data := w.data[n..]).Valid()
  {
    assert !w.Has(w.left + n);
    assert n > 0 ==> w.Has(w.left);
  }

  lemma DrainedAreStored<T>(w: Window<T>, n: nat)
    requires n <= |w.data| && forall i :: 0 <= i < n ==> w.data[i].Some?
    ensures forall i :: 0 <= i < n ==> RunAt(w.Contents(), w.left, Values(w.data[..n]), i)
  {
    forall i | 0 <= i < n ensures RunAt(w.Contents(), w.left, Values(w.data[..n]), i) {
      assert w.Has(w.left + i);
    }
  }

  /** drop_front restricts the map, and moves the bound even past the stored elements. */
  lemma DropRestricts<T>(w: Window<T>, n: nat)
    requires w.Valid()
    ensures var w' := DropFront(w, n);
            && w'.Valid()
            && w'.left == w.left + n
            && w'.cap == w.cap
            && w'.Next() == (if n <= |w.data| then w.Next() else w'.left)
            && w'.Contents() == From(w.Contents(), w'.left)
  {
    if n <= |w.data| {
      SuffixRestricts(w, n);
    } else {
      var w' := DropFront(w, n);
      assert w'.Contents() == map[];
      assert forall k :: k in w.Contents() ==> k < w'.left;
    }
  }

  lemma DropWithin<T>(w: Window<T>, n: nat)
    requires w.Valid() && n <= |w.data|
    ensures var w' := DropFront(w, n);
            && w'.Valid()
            && w' == Window(w.left + n, w.data[n..], w.cap)
  {
  }

  lemma SuffixRestricts<T>(w: Window<T>, n: nat)
    requires n <= |w.data|
    ensures w.(left := w.left + n, data := w.data[n..]).Contents() == From(w.Contents(), w.left + n)
  {
    var w' := w.(left := w.left + n, data := w.data[n..]);
    forall k: nat ensures w'.Has(k) <==> w.Has(k) && w.left + n <= k {
      if w.left + n <= k < w.left + |w.data| {
        assert w'.data[k - w'.left] == w.data[k - w.left];
      }
    }
    forall k | k in w'.Contents() ensures w'.Contents()[k] == w.Contents()[k] {
      assert w'.Has(k);
      assert w'.data[k - w'.left] == w.data[k - w.left];
    }
    assert w'.Contents().Keys == From(w.Contents(), w.left + n).Keys;
  }

  /**
   * The representation is canonical: bounds and map determine the slots, because the
   * rightmost slot is always filled.
   */
  lemma ContentsDetermineWindow<T>(v: Window<T>, w: Window<T>)
    requires v.Valid() && w.Valid()
    requires v.left == w.left && v.cap == w.cap && v.Contents() == w.Contents()
    ensures v == w
  {
    NextIsAboveContents(v, w);
    NextIsAboveContents(w, v);
    forall i | 0 <= i < |v.data| ensures v.data[i] == w.data[i] {
      var s := v.left + i;
      assert s in v.Contents() <==> v.data[s - v.left].Some?;
      assert s in w.Contents() <==> w.data[s - w.left].Some?;
    }
  }

  lemma NextIsAboveContents<T>(v: Window<T>, w: Window<T>)
    requires v.Valid()
    requires v.left == w.left && v.Contents() == w.Contents()
    ensures |v.data| <= |w.data|
  {
    if v.data != [] {
      var last := v.left + |v.data| - 1;
      assert v.data[last - v.left].Some?;
      assert last in v.Contents();
      assert last in w.Contents();
    }
  }

  /** Appending at the next sequence number of a queue-like window always has room below the limits. */
  lemma PutAtNext<T>(w: Window<T>, e: T)
    requires w.Valid() && !w.IsFull() && w.Next() <= U64_MAX
    ensures Put(w, w.Next(), e) == Ok(w.(data := w.data + [Some(e)]))
    ensures w.(data := w.data + [Some(e)]).Valid()
  {
    assert Nones<T>(0) == [];
    assert w.data + [] == w.data;
  }
}
