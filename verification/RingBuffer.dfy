// The growing circular byte buffer of server/ringbuffer.c.

module RingBuffer {
  import opened Bytes
  import opened CircularArray

  /** memcpy into an array. */
  method Store(arr: array<byte>, at: nat, data: seq<byte>)
    requires at + |data| <= arr.Length
    modifies arr
    ensures arr[..] == Spliced(old(arr[..]), at, data)
  {
    forall j | 0 <= j < |data| {
      arr[at + j] := data[j];
    }
  }

  class RingBuffer {
    var arr: array<byte>
    var cap: nat
    var len: nat
    var begin: nat
    var end: nat

    ghost predicate Valid()
      reads this
    {
      && arr.Length == cap && 1024 <= cap && len < cap
      && begin < cap
      && end == (if begin + len < cap then begin + len else begin + len - cap)
    }

    /** The bytes written and not yet discarded. */
    ghost function Contents(): (s: seq<byte>)
      reads this, arr
      requires Valid()
      ensures |s| == len
    {
      Circular(arr[..], begin, len)
    }

    /** dime_ringbuffer_init. */
    constructor ()
      ensures Valid() && fresh(arr) && Contents() == []
    {
      cap := 1024;
      arr := new byte[1024](_ => 0);
      len := 0;
      begin, end := 0, 0;
    }

    /** The first half of a write: grow, and move the wrapped part to the end
        of the larger array. */
    method MakeRoom(siz: nat)
      requires Valid() && siz > 0
      modifies this
      ensures Valid() && len == old(len) && len + siz < cap && (arr == old(arr) || fresh(arr))
      ensures Contents() == old(Contents())
    {
      if len + siz < cap {
        return;
      }
      hide Circular;
      ghost var a := arr[..];
      var ncap := 3 * (len + siz) / 2;
      var narr := new byte[ncap](_ => 0);
      forall j | 0 <= j < cap {
        narr[j] := arr[j];
      }
      ghost var oldBegin := begin;
      if end < begin {
        var nbegin := begin + (ncap - cap);
        forall j | nbegin <= j < ncap {
          narr[j] := narr[j - (nbegin - begin)];
        }
        begin := nbegin;
        CircularMove(a, oldBegin, len, narr[..], begin);
      } else {
        CircularStay(a, begin, len, narr[..]);
      }
      arr := narr;
      cap := ncap;
    }

    /** The one or two memcpy calls of a write. */
    method Copy(buf: seq<byte>)
      requires arr.Length == cap && end < cap && |buf| < cap
      modifies arr
      ensures arr[..] == Written(old(arr[..]), end, buf)
    {
      var siz, spaceleft := |buf|, cap - end;
      WrittenInPieces(arr[..], end, buf);
      hide Written, Spliced;
      if spaceleft < siz {
        Store(arr, end, buf[..spaceleft]);
        Store(arr, 0, buf[spaceleft..]);
      } else {
        Store(arr, end, buf);
      }
    }

    /** dime_ringbuffer_write. */
    method Write(buf: seq<byte>) returns (n: nat)
      requires Valid()
      modifies this, arr
      ensures Valid() && n == |buf| && (arr == old(arr) || fresh(arr))
      ensures Contents() == old(Contents()) + buf
    {
      hide Circular, Written;
      var siz := |buf|;
      if siz == 0 {
        return 0;
      }
      MakeRoom(siz);
      CircularWrite(arr[..], begin, len, buf);
      Copy(buf);
      len := len + siz;
      end := end + siz;
      if end >= cap {
        end := end - cap;
      }
      return siz;
    }

    /** dime_ringbuffer_peek: copies out at most siz bytes. */
    method Peek(siz: nat) returns (buf: seq<byte>)
      requires Valid()
      ensures buf == Contents()[..if siz > len then len else siz]
    {
      var n := if siz > len then len else siz;
      if n == 0 {
        return [];
      }
      CircularPrefix(arr[..], begin, len, n);
      var spaceleft := cap - begin;
      if spaceleft < n {
        buf := arr[begin..] + arr[..n - spaceleft];
      } else {
        buf := arr[begin..begin + n];
      }
    }

    /** dime_ringbuffer_discard. */
    method Discard(siz: nat) returns (n: nat)
      requires Valid()
      modifies this
      ensures Valid() && arr == old(arr) && n == (if siz > old(len) then old(len) else siz)
      ensures Contents() == old(Contents())[n..]
    {
      hide Circular;
      n := if siz > len then len else siz;
      CircularDrop(arr[..], begin, len, n);
      len := len - n;
      begin := begin + n;
      if begin >= cap {
        begin := begin - cap;
      }
    }

    /** dime_ringbuffer_read: peek, then discard what was copied. */
    method Read(siz: nat) returns (buf: seq<byte>)
      requires Valid()
      modifies this
      ensures Valid() && arr == old(arr)
      ensures buf == old(Contents())[..if siz > old(len) then old(len) else siz]
      ensures buf + Contents() == old(Contents())
    {
      buf := Peek(siz);
      var n := Discard(|buf|);
    }

    /** dime_ringbuffer_len. */
    method Len() returns (n: nat)
      requires Valid()
      ensures n == |Contents()|
    {
      n := len;
    }
  }
}
