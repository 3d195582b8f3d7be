/** The partial-transfer loops of the file-system helpers: keep calling a
    primitive that may move fewer bytes than asked until the whole length
    is done, the primitive reports end of file, or it fails. The primitive
    is given as the sequence of values its successive calls return, long
    enough for every call the loop can make. */
module Stream {

  /** The arguments of one primitive call: where in the buffer it starts
      and how many bytes it asks for. */
  datatype Request = Request(offset: int, length: int)

  /** One `iovec`: its base, as an offset from the address the helper was
      given, and its length. */
  datatype IoVec = IoVec(offset: int, length: int)

  /** The arguments of one `process_vm_readv`/`process_vm_writev` call:
      the local and the remote `iovec`. */
  datatype IoVecs = IoVecs(local: IoVec, remote: IoVec)

  /** What the first `k` calls returned, added up. */
  function Done(reply: seq<int>, k: nat): int
    requires k <= |reply|
  {
    if k == 0 then 0 else Done(reply, k - 1) + reply[k - 1]
  }

  /** The first `k` calls all moved at least one byte. */
  predicate Progressing(reply: seq<int>, k: nat)
    requires k <= |reply|
  {
    forall j :: 0 <= j < k ==> 0 < reply[j]
  }

  /** The primitive never moves more bytes than it is asked for: a call
      made after `k` productive calls, asked for the `len - Done(reply, k)`
      bytes still to go, returns at most that many. Each productive call
      moves at least one byte, so `len + 1` answers are enough. */
  predicate Honest(reply: seq<int>, len: nat)
  {
    len < |reply| &&
    forall k :: 0 <= k < |reply| && Progressing(reply, k) ==> reply[k] <= len - Done(reply, k)
  }

  /** How a transfer of `len` bytes ended after `calls` calls returning
      `reply(0)`, `reply(1)`, ...: every call but the last moved bytes;
      the last one failed, hit end of file, or completed the length; a
      failure of the first call is returned as it is, a later failure
      returns the bytes already moved, and otherwise the result is the sum
      of what the calls returned. */
  predicate Ended(reply: seq<int>, len: nat, calls: nat, ret: int)
  {
    1 <= calls <= |reply| && Progressing(reply, calls - 1) &&
    (1 < calls ==> Done(reply, calls - 1) < len) &&
    (reply[calls - 1] <= 0 || Done(reply, calls) == len) &&
    (reply[calls - 1] < 0 && calls == 1 ==> ret == reply[0]) &&
    (reply[calls - 1] < 0 && 1 < calls ==> ret == Done(reply, calls - 1)) &&
    (0 <= reply[calls - 1] ==> ret == Done(reply, calls))
  }

  /** `Ended` pins the outcome down: for an honest primitive, only one
      number of calls and one result fit it. */
  lemma EndedUnique(reply: seq<int>, len: nat, c1: nat, r1: int, c2: nat, r2: int)
    requires Honest(reply, len) && Ended(reply, len, c1, r1) && Ended(reply, len, c2, r2)
    ensures c1 == c2 && r1 == r2
  {
  }

  /** A productive call that stays within what was asked keeps the loop's
      bookkeeping: the calls so far all moved bytes, and no more than `len`. */
  lemma Advance(reply: seq<int>, len: nat, k: nat)
    requires Honest(reply, len) && k < |reply| && Progressing(reply, k) && 0 < reply[k]
    ensures Progressing(reply, k + 1)
    ensures Done(reply, k + 1) == Done(reply, k) + reply[k] <= len
  {
  }

  /** The call after `k` productive ones failed. */
  lemma EndFailed(reply: seq<int>, len: nat, k: nat, ret: int)
    requires k < |reply| && Progressing(reply, k) && reply[k] < 0 && (0 < k ==> Done(reply, k) < len)
    requires ret == if k == 0 then reply[0] else Done(reply, k)
    ensures Ended(reply, len, k + 1, ret)
  {
  }

  /** The call after `k` productive ones hit end of file or completed the length. */
  lemma EndStopped(reply: seq<int>, len: nat, k: nat, ret: int)
    requires k < |reply| && Progressing(reply, k) && 0 <= reply[k] && (0 < k ==> Done(reply, k) < len)
    requires ret == Done(reply, k) + reply[k] && (reply[k] == 0 || ret == len)
    ensures Ended(reply, len, k + 1, ret)
  {
  }

  /** The request of call `k`, after `k` earlier calls. */
  function RequestAt(reply: seq<int>, len: nat, k: nat): Request
    requires k <= |reply|
  {
    Request(Done(reply, k), len - Done(reply, k))
  }

  /** The `iovec`s of call `k`: both start past what is done and ask for the rest. */
  function IoVecsAt(reply: seq<int>, len: nat, k: nat): IoVecs
    requires k <= |reply|
  {
    IoVecs(IoVec(Done(reply, k), len - Done(reply, k)), IoVec(Done(reply, k), len - Done(reply, k)))
  }

  /** `filesystem::write` and `filesystem::read`: the same loop over
      `::write` or `::read` on a descriptor. Call `j` asks for what is
      left, at the position just past what is done; the result never
      exceeds `len`, is negative only when the very first call fails, and
      is positive when a later call fails. Even a zero length makes one
      call. */
  method Transfer(reply: seq<int>, len: nat) returns (ret: int, requests: seq<Request>)
    requires Honest(reply, len)
    ensures Ended(reply, len, |requests|, ret)
    ensures |requests| <= len + 1
    ensures forall j :: 0 <= j < |requests| ==> requests[j] == RequestAt(reply, len, j)
    ensures ret <= len
    ensures ret < 0 <==> reply[0] < 0
    ensures ret < 0 ==> |requests| == 1
  {
    ret := 0;
    var l: int := len;
    var offset := 0;
    requests := [];
    while true
      invariant |requests| <= ret && |requests| <= len
      invariant Progressing(reply, |requests|)
      invariant ret == Done(reply, |requests|) == offset && l == len - ret && ret <= len
      invariant 0 < |requests| ==> 0 < ret < len
      invariant forall j :: 0 <= j < |requests| ==> requests[j] == RequestAt(reply, len, j)
      decreases l
    {
      var n := |requests|;
      requests := requests + [Request(offset, l)];
      var r := reply[n];
      if r < 0 {
        if ret == 0 {
          EndFailed(reply, len, n, r);
          return r, requests;
        } else {
          EndFailed(reply, len, n, ret);
          return ret, requests;
        }
      }
      if r == 0 {
        EndStopped(reply, len, n, ret);
        return ret, requests;
      }
      Advance(reply, len, n);
      l := l - r;
      offset := offset + r;
      ret := ret + r;
      if l == 0 {
        EndStopped(reply, len, n, ret);
        return ret, requests;
      }
    }
  }

  /** `filesystem::remote_write` and `filesystem::remote_read`: the same
      loop over one local and one remote `iovec`, which advance together
      by what each call moved. */
  method RemoteTransfer(reply: seq<int>, len: nat) returns (ret: int, requests: seq<IoVecs>)
    requires Honest(reply, len)
    ensures Ended(reply, len, |requests|, ret)
    ensures |requests| <= len + 1
    ensures forall j :: 0 <= j < |requests| ==> requests[j] == IoVecsAt(reply, len, j)
    ensures ret <= len
    ensures ret < 0 <==> reply[0] < 0
    ensures ret < 0 ==> |requests| == 1
  {
    ret := 0;
    var local := IoVec(0, len);
    var remote := IoVec(0, len);
    requests := [];
    while true
      invariant |requests| <= ret && |requests| <= len
      invariant Progressing(reply, |requests|)
      invariant ret == Done(reply, |requests|) && ret <= len
      invariant local == remote == IoVec(ret, len - ret)
      invariant 0 < |requests| ==> 0 < ret < len
      invariant forall j :: 0 <= j < |requests| ==> requests[j] == IoVecsAt(reply, len, j)
      decreases local.length
    {
      var n := |requests|;
      requests := requests + [IoVecs(local, remote)];
      var r := reply[n];
      if r < 0 {
        if ret == 0 {
          EndFailed(reply, len, n, r);
          return r, requests;
        } else {
          EndFailed(reply, len, n, ret);
          return ret, requests;
        }
      }
      if r == 0 {
        EndStopped(reply, len, n, ret);
        return ret, requests;
      }
      Advance(reply, len, n);
      local := IoVec(local.offset + r, local.length - r);
      remote := IoVec(remote.offset + r, remote.length - r);
      ret := ret + r;
      if local.length == 0 {
        EndStopped(reply, len, n, ret);
        return ret, requests;
      }
    }
  }
}
