/** A buffered stream over a disk or host file, and the same calls on the bare file. */
module Stdio {
  import opened Media

  datatype Mode = Full | Line | Unbuffered
  datatype State = Empty | Reading | Writing

  const EOF: int := -1

  /** The bytes a program sees, where it is, its pushed-back character or -1, and the end-of-file flag. */
  datatype Logical = Logical(data: seq<Byte>, at: nat, back: Back, eof: bool)

  /** A byte, or -1. */
  type Back = x: int | -1 <= x < 256

  // ---- the calls on the bare medium -----------------------------------------------------------------

  function Ahead(v: Logical): nat
  {
    if v.at < |v.data| then |v.data| - v.at else 0
  }

  /** fgetc: the character, or EOF. */
  function Get(v: Logical): (int, Logical)
  {
    if v.back >= 0 then (v.back, v.(back := -1))
    else if v.at < |v.data| then (v.data[v.at], v.(at := v.at + 1))
    else (EOF, v.(eof := true))
  }

  /** fputc and fwrite. */
  function Put(v: Logical, s: seq<Byte>): Logical
  {
    v.(data := Written(v.data, v.at, s), at := v.at + |s|)
  }

  /** fread: the bytes there are, up to n. */
  function Take(v: Logical, n: nat): (seq<Byte>, Logical)
  {
    var first: seq<Byte> := if v.back >= 0 && n > 0 then [v.back] else [];
    var left := n - |first|;
    var m := if left < Ahead(v) then left else Ahead(v);
    var rest := if m == 0 then [] else v.data[v.at..v.at + m];
    (first + rest,
     Logical(v.data, v.at + m, if n > 0 then -1 else v.back, v.eof || m < left))
  }

  /** ungetc */
  function Unget(v: Logical, c: int): (int, Logical)
  {
    if c == EOF || v.back >= 0 then (EOF, v) else (c % 256, v.(back := c % 256, eof := false))
  }

  /** ftell: where the next character read will have come from. */
  function Tell(v: Logical): int
  {
    v.at - if v.back >= 0 then 1 else 0
  }

  /** Where fseek leads. */
  function SeekTo(v: Logical, offset: int, whence: Whence): int
  {
    match whence
    case Set => offset
    case Cur => Tell(v) + offset
    case End => |v.data| + offset
  }

  // ---- the stream -----------------------------------------------------------------------------------------

  class Stream {
    const medium: Medium
    const buf: array<Byte>
    const readable: bool
    const writable: bool
    var mode: Mode
    var ready: bool
    var state: State
    var len: nat
    var pos: nat
    var unget: int
    var eof: bool
    var error: bool

    /** What the fields say of one another, and of the medium: the bytes read ahead are its last. */
    ghost predicate Fits()
      reads this, medium, buf
    {
      && buf.Length > 0 && pos <= len <= buf.Length && -1 <= unget < 256
      && (state == Empty ==> len == 0 && pos == 0) && (state == Writing ==> pos == 0 && len > 0)
      && (state != Empty ==> ready && mode != Unbuffered)
      && (state == Reading ==>
            len <= medium.at <= |medium.data| && buf[..len] == medium.data[medium.at - len..medium.at])
    }

    /** Between calls what is held back does not fill the buffer. */
    ghost predicate Valid()
      reads this, medium, buf
    {
      Fits() && (state == Writing ==> len < buf.Length)
    }

    /** What the program sees: the medium, corrected by what is held back or read ahead. */
    ghost function Seen(): Logical
      requires Fits()
      reads this, medium, buf
    {
      match state
      case Empty => Logical(medium.data, medium.at, unget, eof)
      case Reading => Logical(medium.data, medium.at - (len - pos), unget, eof)
      case Writing => Logical(Written(medium.data, medium.at, buf[..len]), medium.at + len, unget, eof)
    }

    constructor (m: Medium, size: nat, how: Mode, r: bool, w: bool)
      requires size > 0
      ensures Valid() && medium == m && fresh(buf) && readable == r && writable == w
      ensures Seen() == Logical(m.data, m.at, -1, false)
    {
      medium, buf, mode, readable, writable := m, new Byte[size], how, r, w;
      ready, state, len, pos, unget, eof, error := false, Empty, 0, 0, -1, false, false;
    }

    /** All of s to the medium, in as many writes as it takes. */
    method RawWrite(s: seq<Byte>) returns (done: nat)
      modifies medium
      ensures done == |s|
      ensures medium.data == Written(old(medium.data), old(medium.at), s) && medium.at == old(medium.at) + |s|
    {
      hide Written;
      ghost var data, at := medium.data, medium.at;
      WrittenNothing(data, at);
      done := 0;
      assert s[..0] == [];
      while done < |s|
        invariant done <= |s| && medium.data == Written(data, at, s[..done]) && medium.at == at + done
        decreases |s| - done
      {
        var part := if |s| - done > 0x4000_0000 then 0x4000_0000 else |s| - done;
        var wrote := medium.Write(s[done..done + part]);
        WrittenTwice(data, at, s[..done], s[done..done + part][..wrote]);
        assert s[..done] + s[done..done + part][..wrote] == s[..done + wrote];
        done := done + wrote;
      }
      assert s[..done] == s;
    }

    /** What is held back goes to the medium. */
    method Flush()
      requires Fits()
      modifies this`state, this`len, medium
      ensures Fits() && Seen() == old(Seen())
      ensures state == if old(state) == Writing then Empty else old(state)
      ensures old(state) != Writing ==>
        len == old(len) && medium.data == old(medium.data) && medium.at == old(medium.at)
    {
      hide Written;
      if state != Writing {
        return;
      }
      var pending := len;
      state := Empty;
      len := 0;
      WrittenNothing(medium.data, medium.at);
      if pending != 0 {
        var done := RawWrite(buf[..pending]);
      }
    }

    /** Ends reading ahead: the medium stands where the program does, which sees no change. */
    method DropReadAhead()
      requires Fits()
      modifies this`state, this`len, this`pos, medium`at
      ensures Fits() && Seen() == old(Seen())
      ensures state == if old(state) == Reading then Empty else old(state)
      ensures old(state) != Reading ==> len == old(len) && medium.at == old(medium.at)
    {
      hide Written;
      if state != Reading {
        return;
      }
      var unread := len - pos;
      state := Empty;
      len := 0;
      pos := 0;
      if unread != 0 {
        var ok := medium.Seek(0 - unread, Cur);
      }
    }

    /** Makes sure of a buffer; `granted` says whether a first allocation succeeds. */
    method BufferOf(granted: bool) returns (has: bool)
      requires Fits()
      modifies this`mode, this`ready
      ensures Fits() && Seen() == old(Seen()) && (has <==> mode != Unbuffered && ready)
      ensures !has ==> state == Empty
    {
      hide Written;
      if mode == Unbuffered {
        return false;
      }
      if !ready {
        if !granted {
          mode := Unbuffered;
          return false;
        }
        ready := true;
      }
      return true;
    }

    // ---- writing ------------------------------------------------------------------------------------

    /** memcpy to the buffer. */
    method CopyIn(start: nat, s: seq<Byte>)
      requires start + |s| <= buf.Length
      modifies buf
      ensures buf[..start + |s|] == old(buf[..start]) + s
    {
      var i := 0;
      while i < |s|
        invariant i <= |s| && buf[..start + i] == old(buf[..start]) + s[..i]
      {
        buf[start + i] := s[i];
        assert buf[..start + i + 1] == buf[..start + i] + [s[i]];
        i := i + 1;
      }
    }

    /** Bytes to the end of what is held back. */
    method Hold(s: seq<Byte>)
      requires Fits() && state != Reading && ready && mode != Unbuffered && s != [] && len + |s| <= buf.Length
      modifies this`state, this`len, buf
      ensures Fits() && state == Writing && len == old(len) + |s| && Seen() == Put(old(Seen()), s)
    {
      hide Written;
      ghost var data, at, held := medium.data, medium.at, buf[..len];
      if len == 0 { WrittenNothing(data, at); }
      CopyIn(len, s);
      len := len + |s|;
      state := Writing;
      WrittenTwice(data, at, held, s);
    }

    /** fputc: what the bare medium would do; a character pushed back stays so. */
    method Fputc(c: int, granted: bool) returns (r: int)
      requires Valid()
      modifies this, medium, buf
      ensures Valid() && r == if writable then c % 256 else EOF
      ensures Seen() == if writable then Put(old(Seen()), [c % 256]) else old(Seen())
      ensures error == old(error)
    {
      hide Written;
      if !writable {
        return EOF;
      }
      var byte: Byte := c % 256;
      DropReadAhead();
      var has := BufferOf(granted);
      if !has {
        var done := RawWrite([byte]);
        return byte;
      }
      Hold([byte]);
      if len == buf.Length || (mode == Line && byte == 10) {
        Flush();
      }
      return byte;
    }

    /** Straight to the medium, nothing being held back. */
    method Through(p: seq<Byte>) returns (count: nat)
      requires Fits() && state == Empty
      modifies medium
      ensures Valid() && count == |p| && Seen() == Put(old(Seen()), p)
    {
      hide Written;
      count := RawWrite(p);
    }

    /** Copies into the buffer and empties it when it is full, until p is used up or the rest goes out at once. */
    method Fill(p: seq<Byte>) returns (done: nat)
      requires Valid() && state != Reading && ready && mode != Unbuffered
      modifies this`state, this`len, medium, buf
      ensures Valid() && state != Reading && done == |p| && Seen() == Put(old(Seen()), p)
    {
      hide Put, Stream.Fits, Stream.Seen;
      ghost var v := Seen();
      done := 0;
      PutNothing(v);
      assert p[..0] == [];
      while done < |p|
        invariant Valid() && done <= |p| && state != Reading && ready && mode != Unbuffered
        invariant Seen() == Put(v, p[..done])
        decreases |p| - done
      {
        HoldsSome(this);
        if len == 0 && |p| - done >= buf.Length {
          PutOn(v, p, done);
          var wrote := Through(p[done..]);
          done := done + wrote;
          return;
        }
        var room := buf.Length - len;
        var part := if |p| - done < room then |p| - done else room;
        PutMore(v, p, done, part);
        assert |p[done..done + part]| == part > 0;
        Hold(p[done..done + part]);
        done := done + part;
        if len == buf.Length {
          Flush();
        } else {
          HoldsSome(this);
        }
      }
      assert p[..done] == p;
    }

    /** fwrite of the bytes of p: just what the bare medium would do. */
    method WriteBytes(p: seq<Byte>, granted: bool) returns (count: nat)
      requires Valid()
      modifies this, medium, buf
      ensures Valid() && count == |p| && Seen() == Put(old(Seen()), p) && error == old(error)
    {
      hide Written, Put;
      DropReadAhead();
      var has := BufferOf(granted);
      if !has {
        count := Through(p);
        return;
      }
      var failedBefore := error;
      error := false;
      var done := Fill(p);
      if mode == Line && state == Writing && 10 in buf[..len] {
        Flush();
      }
      var failed := error;
      error := failed || failedBefore;
      return if failed then 0 else done;
    }

    // ---- reading ------------------------------------------------------------------------------------

    /** A block from the medium into the buffer, nothing unread being left in it; how many bytes came. */
    method Refill() returns (n: nat)
      requires Fits() && state != Writing && pos == len && ready && mode != Unbuffered
      modifies this`state, this`len, this`pos, medium`at, buf
      ensures Fits() && Seen() == old(Seen()) && state != Writing && (n == 0 <==> Ahead(Seen()) == 0)
      ensures if n == 0 then state == Empty else state == Reading && pos == 0 && len == n
    {
      hide Written;
      var s := medium.Read(buf.Length);
      n := |s|;
      CopyIn(0, s);
      state := if n == 0 then Empty else Reading;
      len := n;
      pos := 0;
    }

    /** The next byte read ahead, now used. */
    method NextAhead() returns (c: Byte)
      requires Fits() && state == Reading && pos < len
      modifies this`pos
      ensures Fits() && Ahead(old(Seen())) > 0
      ensures c == old(Seen()).data[old(Seen()).at] && Seen() == old(Seen()).(at := old(Seen()).at + 1)
    {
      assert buf[..len][pos] == medium.data[medium.at - len..medium.at][pos];
      c := buf[pos];
      pos := pos + 1;
    }

    /** A byte straight from the medium; -1 at the end. */
    method ReadOne() returns (c: int)
      requires Fits() && state == Empty
      modifies medium`at
      ensures Fits()
      ensures var v := old(Seen());
        if Ahead(v) > 0 then c == v.data[v.at] && Seen() == v.(at := v.at + 1) else c == -1 && Seen() == v
    {
      var s := medium.Read(1);
      return if |s| == 1 then s[0] else -1;
    }

    /** The next byte of the medium, through the buffer; -1 at the end. */
    method OpsGetc(granted: bool) returns (c: int)
      requires Valid()
      modifies this, medium, buf
      ensures Valid() && error == old(error)
      ensures var v := old(Seen());
        if Ahead(v) > 0 then c == v.data[v.at] && Seen() == v.(at := v.at + 1) else c == -1 && Seen() == v
    {
      hide Stream.Fits, Stream.Seen, Ahead;
      Flush();
      if state == Reading && pos < len {
        c := NextAhead();
        return;
      }
      var has := BufferOf(granted);
      if !has {
        c := ReadOne();
        return;
      }
      NothingUnread(this);
      var n := Refill();
      if n == 0 {
        return -1;
      }
      c := NextAhead();
    }

    /** fgetc: just what the bare medium would give. */
    method Fgetc(granted: bool) returns (c: int)
      requires Valid()
      modifies this, medium, buf
      ensures Valid() && error == old(error)
      ensures if readable then (c, Seen()) == Get(old(Seen())) else c == EOF && Seen() == old(Seen())
    {
      hide Stream.Fits, Stream.Seen;
      if !readable {
        return EOF;
      }
      BackIs(this);
      if unget >= 0 {
        var s := TakeBack();
        return s[0];
      }
      c := OpsGetc(granted);
      if c < 0 {
        AtEnd();
        return EOF;
      }
    }

    method Ungetc(c: int) returns (r: int)
      requires Valid()
      modifies this`unget, this`eof
      ensures Valid() && if readable then (r, Seen()) == Unget(old(Seen()), c) else r == EOF && Seen() == old(Seen())
    {
      if !readable || c == EOF || unget >= 0 {
        return EOF;
      }
      unget := c % 256;
      eof := false;
      return c % 256;
    }

    /** memcpy of up to n bytes from what was read ahead. */
    method TakeAhead(n: nat) returns (s: seq<Byte>)
      requires Fits() && state == Reading && pos < len && n > 0
      modifies this`pos
      ensures Fits() && s != [] && |s| <= n && Took(old(Seen()), s, Seen())
      ensures |s| == n || pos == len
    {
      hide Written, Took;
      ghost var v := Seen();
      var have := len - pos;
      var part := if n < have then n else have;
      HeldPart(this, pos, pos + part);
      s := buf[pos..pos + part];
      pos := pos + part;
      TookPart(v, s, Seen());
    }

    /** A read straight into the program's own memory; nothing at the end. */
    method TakeStraight(n: nat) returns (s: seq<Byte>)
      requires Fits() && state == Empty && n > 0
      modifies medium`at
      ensures Fits() && |s| <= n && Took(old(Seen()), s, Seen()) && (s == [] <==> Ahead(old(Seen())) == 0)
    {
      var part := if n > 0x4000_0000 then 0x4000_0000 else n;
      s := medium.Read(part);
    }

    /** The bytes of fread after the pushed-back one: what is read ahead, then blocks straight or through the buffer. */
    method TakeBytes(n: nat, granted: bool) returns (p: seq<Byte>, short: bool)
      requires Fits() && state != Writing
      modifies this`state, this`len, this`pos, this`mode, this`ready, medium`at, buf
      ensures Valid() && Took(old(Seen()), p, Seen()) && |p| <= n
      ensures short <==> |p| < n
      ensures short ==> Ahead(Seen()) == 0
    {
      hide Stream.Fits, Stream.Seen, Took, Ahead;
      ghost var v := Seen();
      p, short := [], false;
      TookNothing(v);
      while |p| < n
        invariant Fits() && state != Writing && |p| <= n && Took(v, p, Seen())
        decreases n - |p|, if state == Reading && pos < len then 0 else 1
      {
        ghost var w := Seen();
        if state == Reading && pos < len {
          var s := TakeAhead(n - |p|);
          TookMore(v, p, w, s, Seen());
          p := p + s;
          continue;
        }
        NothingUnread(this);
        Forget();
        var has := BufferOf(granted);
        if !has || n - |p| >= buf.Length {
          var s := TakeStraight(n - |p|);
          TookMore(v, p, w, s, Seen());
          if s == [] {
            short := true;
            break;
          }
          p := p + s;
          continue;
        }
        var got := Refill();
        if got == 0 {
          short := true;
          break;
        }
      }
    }

    /** An exhausted buffer is empty. */
    method Forget()
      requires Fits() && state != Writing && pos == len
      modifies this`state, this`len, this`pos
      ensures Fits() && state == Empty && pos == len && Seen() == old(Seen())
    {
      state := Empty;
      len := 0;
      pos := 0;
    }

    /** The pushed-back character, now used. */
    method TakeBack() returns (s: seq<Byte>)
      requires Fits() && unget >= 0
      modifies this`unget
      ensures Fits() && old(Seen()).back >= 0 && s == [old(Seen()).back] && Seen() == old(Seen()).(back := -1)
      ensures old(Valid()) ==> Valid()
    {
      s := [unget];
      unget := -1;
    }

    method AtEnd()
      requires Valid()
      modifies this`eof
      ensures Valid() && Seen() == old(Seen()).(eof := true)
    {
      eof := true;
    }

    /** fread of n bytes: just what the bare medium would give. */
    method OpsRead(n: nat, granted: bool) returns (p: seq<Byte>)
      requires Valid()
      modifies this, medium, buf
      ensures Valid() && (p, Seen()) == Take(old(Seen()), n) && error == old(error)
    {
      hide Stream.Fits, Stream.Seen, Took, Take, Ahead;
      ghost var v := Seen();
      Flush();
      var first: seq<Byte> := [];
      BackIs(this);
      if unget >= 0 && n > 0 {
        first := TakeBack();
      }
      ghost var w := Seen();
      var rest, short := TakeBytes(n - |first|, granted);
      ghost var x := Seen();
      p := first + rest;
      if short {
        AtEnd();
      }
      TakeIs(v, n, first, w, rest, x, short, Seen());
    }

    // ---- position -------------------------------------------------------------------------------------------

    /** fseek. After a failure the program stands where the medium was: past everything read ahead. */
    method Fseek(offset0: int, whence: Whence) returns (ok: bool)
      requires Valid()
      modifies this, medium
      ensures Valid() && state == Empty && error == old(error)
      ensures ok <==> SeekTo(old(Seen()), offset0, whence) >= 0
      ensures ok ==> Seen() == Logical(old(Seen()).data, SeekTo(old(Seen()), offset0, whence), -1, false)
      ensures !ok ==> Seen() == old(Seen()).(back := -1, at := old(Seen()).at + old(Unread()))
    {
      hide Written, SeekTo;
      Flush();
      var offset := MediumOffset(offset0, whence);
      ForgetAll();
      ok := medium.Seek(offset, whence);
      if ok {
        eof := false;
      }
    }

    /** Drops the pushed-back character and what was read ahead: the program is where the medium is. */
    method ForgetAll()
      requires Fits() && state != Writing
      modifies this`unget, this`state, this`len, this`pos
      ensures Fits() && state == Empty && Seen() == Logical(medium.data, medium.at, -1, eof)
      ensures medium.data == old(Seen()).data && medium.at == old(Seen()).at + old(Unread()) && eof == old(Seen()).eof
    {
      unget := -1;
      state := Empty;
      len := 0;
      pos := 0;
    }

    /** The offset, counted from where the medium is. */
    method MediumOffset(offset0: int, whence: Whence) returns (offset: int)
      requires Fits() && state != Writing
      ensures medium.Target(offset, whence) == SeekTo(Seen(), offset0, whence)
    {
      offset := offset0;
      if whence == Cur {
        if unget >= 0 {
          offset := offset - 1;
        }
        if state == Reading {
          offset := offset - (len - pos);
        }
      }
    }

    /** How far the medium is ahead of the program. */
    function Unread(): nat
      requires Fits()
      reads this, medium, buf
    {
      if state == Reading then len - pos else 0
    }

    /** ftell */
    method Ftell() returns (r: int)
      requires Valid()
      ensures r == Tell(Seen())
    {
      hide Written;
      r := medium.at;
      if state == Reading {
        r := r - (len - pos);
      } else if state == Writing {
        r := r + len;
      }
      r := r - if unget >= 0 then 1 else 0;
    }

    /** fflush, and what fclose does first: the medium then is what the program sees, and where it is. */
    method Fflush()
      requires Valid()
      modifies this`state, this`len, this`pos, medium
      ensures Valid() && state == Empty && Seen() == old(Seen())
      ensures medium.data == Seen().data && medium.at == Seen().at
    {
      Flush();
      DropReadAhead();
    }
  }

  lemma WrittenNothing(data: seq<Byte>, at: nat)
    ensures Written(data, at, []) == data
  {
  }

  lemma PutNothing(v: Logical)
    ensures Put(v, []) == v
  {
    WrittenNothing(v.data, v.at);
  }

  lemma PutMore(v: Logical, p: seq<Byte>, done: nat, part: nat)
    requires done + part <= |p|
    ensures Put(Put(v, p[..done]), p[done..done + part]) == Put(v, p[..done + part])
  {
    hide Written;
    WrittenTwice(v.data, v.at, p[..done], p[done..done + part]);
    assert p[..done] + p[done..done + part] == p[..done + part];
  }

  lemma PutOn(v: Logical, p: seq<Byte>, done: nat)
    requires done <= |p|
    ensures Put(Put(v, p[..done]), p[done..]) == Put(v, p)
  {
    PutMore(v, p, done, |p| - done);
    assert p[..|p|] == p && p[done..|p|] == p[done..];
  }

  lemma HoldsSome(f: Stream)
    requires f.Fits()
    ensures f.buf.Length > 0 && f.len <= f.buf.Length && (f.len == 0 && f.state != Reading ==> f.state == Empty)
    ensures f.Valid() && f.state != Reading ==> f.len < f.buf.Length
  {
  }

  lemma NothingUnread(f: Stream)
    requires f.Fits() && !(f.state == Reading && f.pos < f.len)
    ensures f.state != Writing ==> f.pos == f.len
  {
  }

  /** s are the next bytes, and past them is where the program is then. */
  ghost predicate Took(v: Logical, s: seq<Byte>, w: Logical)
  {
    && w == v.(at := v.at + |s|)
    && (s != [] ==> v.at + |s| <= |v.data| && s == v.data[v.at..v.at + |s|])
  }

  lemma TookPart(v: Logical, s: seq<Byte>, w: Logical)
    requires w == v.(at := v.at + |s|) && v.at + |s| <= |v.data| && s == v.data[v.at..v.at + |s|]
    ensures Took(v, s, w)
  {
  }

  lemma TookNothing(v: Logical)
    ensures Took(v, [], v)
  {
  }

  lemma TookMore(v: Logical, p: seq<Byte>, w: Logical, s: seq<Byte>, x: Logical)
    requires Took(v, p, w) && Took(w, s, x)
    ensures Took(v, p + s, x) && p + [] == p
  {
  }

  lemma BackIs(f: Stream)
    requires f.Fits()
    ensures f.Seen().back == f.unget && -1 <= f.unget < 256
  {
  }

  /** The pushed-back byte, the bytes that follow, and whether they ran out, are what fread gives. */
  lemma TakeIs(v: Logical, n: nat, first: seq<Byte>, w: Logical, rest: seq<Byte>, x: Logical, short: bool, y: Logical)
    requires if v.back >= 0 && n > 0 then first == [v.back] && w == v.(back := -1) else first == [] && w == v
    requires Took(w, rest, x) && |rest| <= n - |first| && (short <==> |rest| < n - |first|) && (short ==> Ahead(x) == 0)
    requires y == if short then x.(eof := true) else x
    ensures (first + rest, y) == Take(v, n)
  {
  }

  lemma PartOfPart(s: seq<Byte>, a: nat, b: nat, i: nat, j: nat)
    requires i <= j && a + j <= b <= |s|
    ensures s[a..b][i..j] == s[a + i..a + j]
  {
    var x, y := s[a..b][i..j], s[a + i..a + j];
    forall k | 0 <= k < |x| ensures x[k] == y[k] {
      assert s[a..b][i + k] == s[a + (i + k)];
    }
    assert x == y;
  }

  lemma HeldPart(f: Stream, i: nat, j: nat)
    requires f.Fits() && f.state == Reading && i <= j <= f.len
    ensures f.medium.at - f.len >= 0 && f.medium.at <= |f.medium.data|
    ensures f.buf[i..j] == f.medium.data[f.medium.at - f.len + i..f.medium.at - f.len + j]
  {
    assert f.buf[..f.len][i..j] == f.buf[i..j];
    PartOfPart(f.medium.data, f.medium.at - f.len, f.medium.at, i, j);
  }
}
