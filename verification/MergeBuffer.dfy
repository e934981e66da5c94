/** The fragment buffer of mrp/src/merge_buffer.rs. */
module MergeBuffers {
  import opened Common
  import opened Merging

  datatype AssemblyError = ContentLengthExceeded

  class MergeBuffer<T> {
    var data: seq<T>
    const contentLength: nat

    ghost function View(): Fragments<T>
      reads this
    {
      Fragments(data, contentLength)
    }

    constructor (contentLength: nat)
      requires contentLength != 0
      ensures View() == Fragments([], contentLength)
    {
      this.data := [];
      this.contentLength := contentLength;
    }

    /** No buffer for an empty group. */
    static method Create(contentLength: nat) returns (b: MergeBuffer?<T>)
      ensures b == null <==> contentLength == 0
      ensures b != null ==> fresh(b) && b.View() == Fragments([], contentLength)
    {
      b := null;
      if contentLength != 0 { b := new MergeBuffer(contentLength); }
    }

    /** Refuses beyond the announced length; otherwise says whether the group is now complete. */
    method Push(x: T) returns (r: Result<bool, AssemblyError>)
      modifies this`data
      ensures r.Err? <==> old(|data|) == contentLength
      ensures r.Err? ==> data == old(data)
      ensures r.Ok? ==> data == old(data) + [x] && (r.value <==> |data| == contentLength)
    {
      if |data| == contentLength {
        r := Err(ContentLengthExceeded);
      } else {
        data := data + [x];
        r := Ok(|data| == contentLength);
      }
    }

    /** Panics when called before the group is complete. */
    method Merge(extend: (T, seq<T>) -> T) returns (merged: T)
      requires |data| == contentLength && contentLength != 0
      ensures merged == extend(data[0], data[1..])
    {
      var first, rest := data[0], data[1..];
      merged := extend(first, rest);
    }
  }
}
