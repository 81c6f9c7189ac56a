/** What a stream's bytes are kept on, and a program that uses it directly. */
module Media {
  type Byte = x: nat | x < 256

  function Zeros(n: nat): seq<Byte>
  {
    seq(n, i => 0)
  }

  /** The bytes after s is written at `at`: over what is there, and past the end; a gap reads as zeroes. */
  function Written(data: seq<Byte>, at: nat, s: seq<Byte>): seq<Byte>
  {
    if s == [] then data
    else
      var base := if at <= |data| then data else data + Zeros(at - |data|);
      base[..at] + s + (if at + |s| < |base| then base[at + |s|..] else [])
  }

  lemma WrittenAt(data: seq<Byte>, at: nat, s: seq<Byte>, k: nat)
    requires s != []
    ensures |Written(data, at, s)| == (if at + |s| < |data| then |data| else at + |s|)
    ensures k < |Written(data, at, s)| ==>
      Written(data, at, s)[k] == if at <= k < at + |s| then s[k - at] else if k < |data| then data[k] else 0
  {
  }

  /** Two writes in a row are one. */
  lemma WrittenTwice(data: seq<Byte>, at: nat, s: seq<Byte>, t: seq<Byte>)
    ensures Written(Written(data, at, s), at + |s|, t) == Written(data, at, s + t)
  {
    if s == [] {
      assert s + t == t;
    } else if t == [] {
      assert s + t == s;
    } else {
      WrittenBoth(data, at, s, t);
    }
  }

  lemma WrittenBoth(data: seq<Byte>, at: nat, s: seq<Byte>, t: seq<Byte>)
    requires s != [] && t != []
    ensures Written(Written(data, at, s), at + |s|, t) == Written(data, at, s + t)
  {
    hide Written;
    var once := Written(data, at, s);
    var a, b := Written(once, at + |s|, t), Written(data, at, s + t);
    WrittenAt(data, at, s, 0);
    WrittenAt(once, at + |s|, t, 0);
    WrittenAt(data, at, s + t, 0);
    forall k | 0 <= k < |a| ensures a[k] == b[k] {
      WrittenAt(data, at, s, k);
      WrittenAt(once, at + |s|, t, k);
      WrittenAt(data, at, s + t, k);
    }
  }

  datatype Whence = Set | Cur | End

  /** A disk or host file: bytes and a position. It does not fail, but may read or write fewer bytes than asked. */
  class Medium {
    var data: seq<Byte>
    var at: nat

    constructor (bytes: seq<Byte>)
      ensures data == bytes && at == 0
    {
      data, at := bytes, 0;
    }

    /** ops->read: some of the bytes asked for, none only at the end. */
    method Read(n: nat) returns (s: seq<Byte>)
      requires n > 0
      modifies this`at
      ensures |s| <= n && at == old(at) + |s| && (at <= |data| || s == [])
      ensures s == [] <==> old(at) >= |data|
      ensures s != [] ==> s == data[old(at)..at]
    {
      s := [];
      if at < |data| {
        var most := if n < |data| - at then n else |data| - at;
        var k: nat :| 0 < k <= most;
        s := data[at..at + k];
        at := at + k;
      }
    }

    /** ops->write: some of the bytes given, at least one. */
    method Write(s: seq<Byte>) returns (wrote: nat)
      requires s != []
      modifies this
      ensures 0 < wrote <= |s|
      ensures data == Written(old(data), old(at), s[..wrote]) && at == old(at) + wrote
    {
      wrote :| 0 < wrote <= |s|;
      data := Written(data, at, s[..wrote]);
      at := at + wrote;
    }

    /** Where a seek leads. */
    function Target(offset: int, whence: Whence): int
      reads this
    {
      match whence
      case Set => offset
      case Cur => at + offset
      case End => |data| + offset
    }

    /** ops->seek: fails only before the start. */
    method Seek(offset: int, whence: Whence) returns (ok: bool)
      modifies this`at
      ensures ok <==> old(Target(offset, whence)) >= 0
      ensures at == if ok then old(Target(offset, whence)) else old(at)
    {
      var target := Target(offset, whence);
      ok := target >= 0;
      if ok {
        at := target;
      }
    }
  }
}
