/** Any sequence of calls on a buffered stream, and the same calls on the bare file. */
module StdioRuns {
  import opened Media
  import opened Stdio

  datatype Call =
    | Getc | Putc(c: int) | Read(n: nat) | Write(s: seq<Byte>) | Pushback(c: int) | Seek(offset: int, whence: Whence)
    | Where | Sync

  datatype Answer = Value(v: int) | Bytes(s: seq<Byte>)

  /** A call on the bare file. */
  function Direct(v: Logical, call: Call): (Answer, Logical)
    requires call.Seek? ==> SeekTo(v, call.offset, call.whence) >= 0
  {
    match call
    case Getc => var (c, w) := Get(v); (Value(c), w)
    case Putc(c) => (Value(c % 256), Put(v, [c % 256]))
    case Read(n) => var (s, w) := Take(v, n); (Bytes(s), w)
    case Write(s) => (Value(|s|), Put(v, s))
    case Pushback(c) => var (r, w) := Unget(v, c); (Value(r), w)
    case Seek(offset, whence) => (Value(0), Logical(v.data, SeekTo(v, offset, whence), -1, false))
    case Where => (Value(Tell(v)), v)
    case Sync => (Value(0), v)
  }

  /** Every seek leads somewhere. */
  predicate Legal(v: Logical, calls: seq<Call>)
    decreases |calls|
  {
    |calls| > 0 ==>
      && (calls[0].Seek? ==> SeekTo(v, calls[0].offset, calls[0].whence) >= 0)
      && Legal(Direct(v, calls[0]).1, calls[1..])
  }

  /** What all the calls answer, and where they leave the file and the program. */
  function DirectAll(v: Logical, calls: seq<Call>): (seq<Answer>, Logical)
    requires Legal(v, calls)
    decreases |calls|
  {
    if |calls| == 0 then ([], v)
    else
      var (answer, w) := Direct(v, calls[0]);
      var (answers, x) := DirectAll(w, calls[1..]);
      ([answer] + answers, x)
  }

  /** One call on the stream. */
  method Step(f: Stream, call: Call, granted: bool) returns (answer: Answer)
    requires f.Valid() && f.readable && f.writable
    requires call.Seek? ==> SeekTo(f.Seen(), call.offset, call.whence) >= 0
    modifies f, f.medium, f.buf
    ensures f.Valid() && (answer, f.Seen()) == Direct(old(f.Seen()), call)
  {
    hide Stream.Fits, Stream.Seen, Put, Take, Get, Unget;
    match call
    case Getc =>
      var c := f.Fgetc(granted);
      answer := Value(c);
    case Putc(c) =>
      var r := f.Fputc(c, granted);
      answer := Value(r);
    case Read(n) =>
      var s := f.OpsRead(n, granted);
      answer := Bytes(s);
    case Write(s) =>
      var count := f.WriteBytes(s, granted);
      answer := Value(count);
    case Pushback(c) =>
      var r := f.Ungetc(c);
      answer := Value(r);
    case Seek(offset, whence) =>
      var ok := f.Fseek(offset, whence);
      answer := Value(if ok then 0 else -1);
    case Where =>
      var r := f.Ftell();
      answer := Value(r);
    case Sync =>
      f.Fflush();
      answer := Value(0);
  }

  /** Calls done, and those to come, make up all of them. */
  ghost predicate OnTheWay(v: Logical, calls: seq<Call>, k: nat, answers: seq<Answer>, w: Logical)
    requires Legal(v, calls)
  {
    && k <= |calls| && Legal(w, calls[k..])
    && DirectAll(v, calls) == (answers + DirectAll(w, calls[k..]).0, DirectAll(w, calls[k..]).1)
  }

  lemma OneStep(v: Logical, calls: seq<Call>, k: nat, answers: seq<Answer>, w: Logical)
    requires Legal(v, calls) && k < |calls| && OnTheWay(v, calls, k, answers, w)
    ensures calls[k].Seek? ==> SeekTo(w, calls[k].offset, calls[k].whence) >= 0
    ensures var (answer, x) := Direct(w, calls[k]); OnTheWay(v, calls, k + 1, answers + [answer], x)
  {
    hide Direct;
    var rest := calls[k..];
    assert rest[1..] == calls[k + 1..];
    var (answer, x) := Direct(w, calls[k]);
    var (more, y) := DirectAll(x, rest[1..]);
    assert answers + ([answer] + more) == answers + [answer] + more;
  }

  /**
   * Whatever the buffer's size and mode, whether or not there was memory for it, and however few bytes the medium
   * moves at a time: the calls answer as they would on the bare file, and a flush leaves the file as they would.
   */
  method Run(f: Stream, calls: seq<Call>, granted: seq<bool>) returns (answers: seq<Answer>)
    requires f.Valid() && f.readable && f.writable && |granted| == |calls| && Legal(f.Seen(), calls)
    modifies f, f.medium, f.buf
    ensures f.Valid() && (answers, f.Seen()) == DirectAll(old(f.Seen()), calls)
    ensures f.medium.data == f.Seen().data && f.medium.at == f.Seen().at
  {
    hide Stream.Fits, Stream.Seen, Direct, OnTheWay;
    ghost var v := f.Seen();
    answers := [];
    NothingDone(v, calls);
    var k := 0;
    while k < |calls|
      invariant f.Valid() && k <= |calls| && OnTheWay(v, calls, k, answers, f.Seen())
    {
      OneStep(v, calls, k, answers, f.Seen());
      var answer := Step(f, calls[k], granted[k]);
      answers := answers + [answer];
      k := k + 1;
    }
    AllDone(v, calls, answers, f.Seen());
    f.Fflush();
  }

  lemma NothingDone(v: Logical, calls: seq<Call>)
    requires Legal(v, calls)
    ensures OnTheWay(v, calls, 0, [], v)
  {
    hide Direct;
    assert calls[0..] == calls;
    assert [] + DirectAll(v, calls).0 == DirectAll(v, calls).0;
  }

  lemma AllDone(v: Logical, calls: seq<Call>, answers: seq<Answer>, w: Logical)
    requires Legal(v, calls) && OnTheWay(v, calls, |calls|, answers, w)
    ensures DirectAll(v, calls) == (answers, w)
  {
    hide Direct;
    assert calls[|calls|..] == [];
    assert DirectAll(w, []) == ([], w);
    assert answers + [] == answers;
  }
}
