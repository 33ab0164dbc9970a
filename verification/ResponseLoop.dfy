/** The loop of one dispatcher thread: each round hands back the last response and gets the next request. */
module ResponseLoop {
  import opened Memory
  import opened RecordPacking

  type Status = st: nat | st < 0x1_0000_0000
  type Hint = h: seq<Byte> | |h| == 8 witness [0, 0, 0, 0, 0, 0, 0, 0]

  datatype Request = Request(kind: Status, hint: Hint)

  const RSP_SIZEMAX: nat := 16384
  const RSP_SIZE: nat := 128                       // of the fixed part of a response
  const SIZE_AT: nat := 2                          // offsets in a response
  const KIND_AT: nat := 4
  const HINT_AT: nat := 8
  const STATUS_AT: nat := 20
  const HEADER_SIZE: nat := 24

  const STATUS_PENDING: Status := 0x103
  const STATUS_INVALID_DEVICE_REQUEST: Status := 0xC000_0010

  function Zeroes(n: nat): (z: seq<Byte>)
    ensures |z| == n && forall i :: 0 <= i < n ==> z[i] == 0
  {
    seq(n, i => 0)
  }

  type Frame = f: seq<Byte> | |f| == RSP_SIZEMAX witness Zeroes(RSP_SIZEMAX)

  predicate Success(st: Status)
  {
    st < 0x8000_0000
  }

  /** What the dispatcher is given: the operations there are, the guard, and what each operation does to the
      response. */
  datatype FileSystem = FileSystem(
    supported: set<Status>,
    enter: Request -> Status,
    operate: (Request, Frame) -> (Frame, Status))

  function U16Bytes(v: nat): (bytes: seq<Byte>)
    requires v < 0x1_0000
    ensures |bytes| == 2 && U16At(bytes, 0) == v
  {
    [v % 0x100, v / 0x100]
  }

  function SizeOf(f: Frame): nat
  {
    U16At(f, SIZE_AT)
  }

  function StatusOf(f: Frame): nat
  {
    U32At(f, STATUS_AT)
  }

  // ---------- one response ----------

  /** Only the fixed part of a response is cleared; what follows it stays in the buffer. */
  function Cleared(was: Frame): Frame
  {
    Overwrite(was, 0, Zeroes(RSP_SIZE))
  }

  function Blank(was: Frame, req: Request): Frame
  {
    Overwrite(Overwrite(Overwrite(Cleared(was), SIZE_AT, U16Bytes(RSP_SIZE)), KIND_AT, U32Bytes(req.kind)),
              HINT_AT, req.hint)
  }

  function WithStatus(f: Frame, st: Status): Frame
  {
    Overwrite(f, STATUS_AT, U32Bytes(st))
  }

  /** The response after the operation, if there is one and the guard lets it start.  `was` is what the buffer held. */
  function Executed(fs: FileSystem, was: Frame, req: Request): Frame
  {
    if req.kind !in fs.supported then WithStatus(Blank(was, req), STATUS_INVALID_DEVICE_REQUEST)
    else
      var entered := WithStatus(Blank(was, req), fs.enter(req));
      if !Success(fs.enter(req)) then entered
      else
        var (f, st) := fs.operate(req, entered);
        WithStatus(f, st)
  }

  /** The response as it is handed back: padded; refused if it is too large; blank if the answer comes later. */
  function Answer(fs: FileSystem, was: Frame, req: Request): Frame
  {
    var f := Executed(fs, was, req);
    var size := SizeOf(f);
    if RSP_SIZEMAX < AlignUp(size) then WithStatus(Blank(f, req), STATUS_INVALID_DEVICE_REQUEST)
    else if StatusOf(f) == STATUS_PENDING then Cleared(f)
    else Overwrite(Overwrite(f, size, Zeroes(AlignUp(size) - size)), SIZE_AT, U16Bytes(AlignUp(size)))
  }

  function Reply(fs: FileSystem, was: Frame, req: Option<Request>): Frame
  {
    if req.None? then Cleared(was) else Answer(fs, was, req.value)
  }

  /** What the buffer holds after the requests; `was` is what it held at first. */
  ghost function After(fs: FileSystem, was: Frame, incoming: seq<Option<Request>>): Frame
  {
    if incoming == [] then Cleared(was)
    else Reply(fs, After(fs, was, incoming[..|incoming| - 1]), incoming[|incoming| - 1])
  }

  method Put(response: array<Byte>, o: nat, bytes: seq<Byte>)
    requires o + |bytes| <= response.Length
    modifies response
    ensures response[..] == Overwrite(old(response[..]), o, bytes)
  {
    forall i | 0 <= i < |bytes| {
      response[o + i] := bytes[i];
    }
    assert response[..] == Overwrite(old(response[..]), o, bytes);
  }

  method Clear(response: array<Byte>)
    requires response.Length == RSP_SIZEMAX
    modifies response
    ensures response[..] == Cleared(old(response[..]))
  {
    Put(response, 0, Zeroes(RSP_SIZE));
  }

  lemma WholeOverwrite(was: Frame, f: Frame)
    ensures Overwrite(was, 0, f) == f
  {
  }

  method Begin(req: Request, response: array<Byte>, ghost was: Frame)
    requires response.Length == RSP_SIZEMAX && response[..] == Cleared(was)
    modifies response
    ensures response[..] == Blank(was, req)
  {
    hide Overwrite, Cleared;
    Put(response, SIZE_AT, U16Bytes(RSP_SIZE));
    Put(response, KIND_AT, U32Bytes(req.kind));
    Put(response, HINT_AT, req.hint);
  }

  method Execute(fs: FileSystem, req: Request, response: array<Byte>, ghost was: Frame)
    requires response.Length == RSP_SIZEMAX && response[..] == Blank(was, req)
    modifies response
    ensures response[..] == Executed(fs, was, req)
  {
    hide Overwrite, Blank;
    if req.kind in fs.supported {
      var st := fs.enter(req);
      Put(response, STATUS_AT, U32Bytes(st));
      if Success(st) {
        var (f, st') := fs.operate(req, response[..]);
        ghost var entered: Frame := response[..];
        Put(response, 0, f);
        WholeOverwrite(entered, f);
        Put(response, STATUS_AT, U32Bytes(st'));
      }
    } else {
      Put(response, STATUS_AT, U32Bytes(STATUS_INVALID_DEVICE_REQUEST));
    }
  }

  method Finish(fs: FileSystem, req: Request, response: array<Byte>, ghost was: Frame)
    requires response.Length == RSP_SIZEMAX && response[..] == Executed(fs, was, req)
    modifies response
    ensures response[..] == Answer(fs, was, req)
  {
    hide Overwrite, Blank, Executed, Cleared;
    ghost var executed: Frame := response[..];
    var size := response[SIZE_AT] as int + 0x100 * response[SIZE_AT + 1] as int;
    var responseSize := AlignUp(size);
    if RSP_SIZEMAX < responseSize {
      Clear(response);
      Begin(req, response, executed);
      Put(response, STATUS_AT, U32Bytes(STATUS_INVALID_DEVICE_REQUEST));
    } else if U32At(response[..], STATUS_AT) == STATUS_PENDING {
      Clear(response);
    } else {
      Put(response, size, Zeroes(responseSize - size));
      Put(response, SIZE_AT, U16Bytes(responseSize));
    }
  }

  // ---------- the loop ----------

  /** What is handed back with a response: nothing if it is blank. */
  function Handed(f: Frame): seq<seq<Byte>>
  {
    if 0 < SizeOf(f) <= |f| then [f[..SizeOf(f)]] else []
  }

  /** Everything handed back for the requests, in order. */
  ghost function AllHanded(fs: FileSystem, was: Frame, incoming: seq<Option<Request>>): seq<seq<Byte>>
  {
    if incoming == [] then []
    else AllHanded(fs, was, incoming[..|incoming| - 1]) + Handed(After(fs, was, incoming))
  }

  /** Rounds of the loop: `incoming` is what the rounds get, with None for a round without a request, before one
      fails. */
  method Loop(fs: FileSystem, incoming: seq<Option<Request>>, response: array<Byte>)
    returns (delivered: seq<seq<Byte>>, last: seq<seq<Byte>>)
    requires response.Length == 16384
    modifies response
    ensures delivered == if incoming == [] then [] else AllHanded(fs, old(response[..]), incoming[..|incoming| - 1])
    ensures delivered + last == AllHanded(fs, old(response[..]), incoming) && |last| <= 1
  {
    hide Overwrite, Blank, Executed, Answer, Cleared;
    ghost var was: Frame := response[..];
    Clear(response);
    delivered := [];
    BlankIsNotHanded(was);
    for i := 0 to |incoming|
      invariant response[..] == After(fs, was, incoming[..i])
      invariant delivered == if i == 0 then [] else AllHanded(fs, was, incoming[..i - 1])
    {
      ghost var before: Frame := response[..];
      delivered := delivered + Handed(response[..]);   // the request comes back, so the response has got there
      assert incoming[..i] == [] || incoming[..i][..i - 1] == incoming[..i - 1];
      assert incoming[..i + 1][..i] == incoming[..i];
      Clear(response);
      if incoming[i].Some? {
        Begin(incoming[i].value, response, before);
        Execute(fs, incoming[i].value, response, before);
        Finish(fs, incoming[i].value, response, before);
      }
    }
    assert incoming[..|incoming|] == incoming;
    last := Handed(response[..]);
  }

  // ---------- what is handed back ----------

  lemma OverwriteKeeps(mem: seq<Byte>, o: nat, bytes: seq<Byte>, i: nat, j: nat)
    requires o + |bytes| <= |mem| && i <= j <= |mem| && (j <= o || o + |bytes| <= i)
    ensures Overwrite(mem, o, bytes)[i..j] == mem[i..j]
  {
  }

  /** Where the size of a response is: only its own two bytes matter. */
  lemma SizeWritten(mem: Frame, v: nat)
    requires v < 0x1_0000
    ensures SizeOf(Overwrite(mem, SIZE_AT, U16Bytes(v))) == v
  {
    var m := Overwrite(mem, SIZE_AT, U16Bytes(v));
    assert m[2..4] == U16Bytes(v) && m[2] == m[2..4][0] && m[3] == m[2..4][1];
  }

  lemma SizeKept(mem: Frame, o: nat, bytes: seq<Byte>)
    requires HINT_AT <= o && o + |bytes| <= RSP_SIZEMAX
    ensures SizeOf(Overwrite(mem, o, bytes)) == SizeOf(mem)
  {
    var m := Overwrite(mem, o, bytes);
    assert m[2] == m[..o][2] && m[3] == m[..o][3];
  }

  /** A new response, byte by byte: 128 bytes with the request's kind and hint, and behind them what was there. */
  lemma BlankIs(was: Frame, req: Request)
    ensures var b := Blank(was, req);
            && U16At(b, 2) == 128 && U32At(b, 4) == req.kind && b[8..16] == req.hint
            && (forall i :: 0 <= i < 2 || 16 <= i < 128 ==> b[i] == 0) && b[128..] == was[128..]
  {
    BlankSize(was, req);
    hide U32Bytes, SizeOf, U16Bytes;
    var a := Overwrite(Cleared(was), 2, U16Bytes(128));
    var b := Overwrite(a, 4, U32Bytes(req.kind));
    var bytes := U32Bytes(req.kind);
    var c := Overwrite(b, 8, req.hint);
    assert c == Blank(was, req);
    forall i | 0 <= i < 4 ensures c[4 + i] == bytes[i] { assert c[4 + i] == b[4 + i] == b[4..8][i]; }
    forall i | 0 <= i < 2 || 16 <= i < 128 ensures c[i] == 0 { assert c[i] == b[i] == a[i] == Cleared(was)[i]; }
  }

  lemma BlankSize(was: Frame, req: Request)
    ensures SizeOf(Blank(was, req)) == RSP_SIZE && Blank(was, req)[HINT_AT..HINT_AT + 8] == req.hint
  {
    hide SizeOf, U32Bytes, Cleared;
    var a := Overwrite(Cleared(was), SIZE_AT, U16Bytes(RSP_SIZE));
    SizeWritten(Cleared(was), RSP_SIZE);
    var b := Overwrite(a, KIND_AT, U32Bytes(req.kind));
    KindKeepsSize(a, U32Bytes(req.kind));
    SizeKept(b, HINT_AT, req.hint);
  }

  lemma KindKeepsSize(mem: Frame, bytes: seq<Byte>)
    requires |bytes| == 4
    ensures SizeOf(Overwrite(mem, KIND_AT, bytes)) == SizeOf(mem)
  {
    var m := Overwrite(mem, KIND_AT, bytes);
    assert m[2] == m[..4][2] && m[3] == m[..4][3];
  }

  lemma StatusKeeps(f: Frame, st: Status)
    ensures SizeOf(WithStatus(f, st)) == SizeOf(f)
    ensures WithStatus(f, st)[HINT_AT..HINT_AT + 8] == f[HINT_AT..HINT_AT + 8]
  {
    hide SizeOf, Overwrite, U32Bytes;
    SizeKept(f, STATUS_AT, U32Bytes(st));
    OverwriteKeeps(f, STATUS_AT, U32Bytes(st), HINT_AT, HINT_AT + 8);
  }

  /** Whether the answer comes later. */
  predicate Pending(fs: FileSystem, was: Frame, req: Request)
  {
    AlignUp(SizeOf(Executed(fs, was, req))) <= RSP_SIZEMAX && StatusOf(Executed(fs, was, req)) == STATUS_PENDING
  }

  /** What is handed back has a size that is a multiple of 8 and not too large, and says so itself; its padding is
      zero. */
  lemma HandedIsWhole(fs: FileSystem, was: Frame, req: Request)
    ensures var f, executed := Answer(fs, was, req), Executed(fs, was, req);
            var size := SizeOf(executed);
            && SizeOf(f) % 8 == 0 && SizeOf(f) <= 16384
            && (24 <= size <= 16384 && !Pending(fs, was, req) ==>
                  && size <= SizeOf(f) < size + 8
                  && f[4..size] == executed[4..size]
                  && forall i :: size <= i < SizeOf(f) ==> f[i] == 0)
  {
    hide Executed, Blank, Overwrite, WithStatus;
    var executed := Executed(fs, was, req);
    var size := SizeOf(executed);
    if RSP_SIZEMAX < AlignUp(size) {
      BlankSize(executed, req);
      StatusKeeps(Blank(executed, req), STATUS_INVALID_DEVICE_REQUEST);
    } else if StatusOf(executed) != STATUS_PENDING {
      PaddedIs(executed, size);
    } else {
      BlankIsNotHanded(executed);
    }
  }

  /** If the operation is started, the response is its own but for the status. */
  lemma ExecutedIs(fs: FileSystem, was: Frame, req: Request)
    requires req.kind in fs.supported && fs.enter(req) < 0x8000_0000
    ensures var entered := Overwrite(Blank(was, req), 20, U32Bytes(fs.enter(req)));
            var (f, st) := fs.operate(req, entered);
            var executed := Executed(fs, was, req);
            executed[..20] == f[..20] && U32At(executed, 20) == st && executed[24..] == f[24..]
  {
    hide Blank, U32Bytes;
    var (f, st) := fs.operate(req, WithStatus(Blank(was, req), fs.enter(req)));
    StatusWritten(f, st);
  }

  lemma PaddedIs(executed: Frame, size: nat)
    requires size <= AlignUp(size) <= RSP_SIZEMAX
    ensures var f := Overwrite(Overwrite(executed, size, Zeroes(AlignUp(size) - size)), SIZE_AT,
                              U16Bytes(AlignUp(size)));
            && SizeOf(f) == AlignUp(size)
            && (size >= HEADER_SIZE ==>
                  (forall i :: size <= i < AlignUp(size) ==> f[i] == 0) &&
                  f[KIND_AT..size] == executed[KIND_AT..size])
  {
    hide SizeOf;
    var e := AlignUp(size);
    var padded := Overwrite(executed, size, Zeroes(e - size));
    SizeWritten(padded, e);
    if size >= HEADER_SIZE {
      var f := Overwrite(padded, SIZE_AT, U16Bytes(e));
      assert padded[size..e] == Zeroes(e - size);
      OverwriteKeeps(executed, size, Zeroes(e - size), KIND_AT, size);
      OverwriteKeeps(padded, SIZE_AT, U16Bytes(e), KIND_AT, size);
      OverwriteKeeps(padded, SIZE_AT, U16Bytes(e), size, e);
      forall i | size <= i < e ensures f[i] == 0 { assert f[i] == f[size..e][i - size]; }
    }
  }

  /** Operations leave the hint alone and keep the size at least that of the header. */
  ghost predicate KeepHeaders(fs: FileSystem)
  {
    forall req, f :: Kept(f, fs.operate(req, f).0)
  }

  ghost predicate Kept(f: Frame, f': Frame)
  {
    f'[8..16] == f[8..16] && (SizeOf(f) >= 24 ==> SizeOf(f') >= 24)
  }

  lemma ExecutedKeeps(fs: FileSystem, was: Frame, req: Request)
    requires KeepHeaders(fs)
    ensures Executed(fs, was, req)[HINT_AT..HINT_AT + 8] == req.hint && SizeOf(Executed(fs, was, req)) >= HEADER_SIZE
  {
    hide Blank, WithStatus, SizeOf;
    BlankSize(was, req);
    StatusKeeps(Blank(was, req), STATUS_INVALID_DEVICE_REQUEST);
    StatusKeeps(Blank(was, req), fs.enter(req));
    var entered := WithStatus(Blank(was, req), fs.enter(req));
    var (f, st) := fs.operate(req, entered);
    assert Kept(entered, f);
    StatusKeeps(f, st);
  }

  lemma SameHint(f: Frame, f': Frame, size: nat)
    requires HEADER_SIZE <= size <= RSP_SIZEMAX && f[KIND_AT..size] == f'[KIND_AT..size]
    ensures f[KIND_AT..HINT_AT] == f'[KIND_AT..HINT_AT] && f[HINT_AT..HINT_AT + 8] == f'[HINT_AT..HINT_AT + 8]
  {
    forall i | KIND_AT <= i < HINT_AT + 8 ensures f[i] == f'[i] {
      assert f[i] == f[KIND_AT..size][i - KIND_AT] && f'[i] == f'[KIND_AT..size][i - KIND_AT];
    }
  }

  // ---------- the kind of a response ----------

  /** Operations leave the kind alone. */
  ghost predicate KeepKinds(fs: FileSystem)
  {
    forall req, f :: fs.operate(req, f).0[KIND_AT..HINT_AT] == f[KIND_AT..HINT_AT]
  }

  lemma BlankKind(was: Frame, req: Request)
    ensures Blank(was, req)[KIND_AT..HINT_AT] == U32Bytes(req.kind)
  {
    hide U32Bytes, Cleared;
    var a := Overwrite(Cleared(was), SIZE_AT, U16Bytes(RSP_SIZE));
    OverwriteKeeps(Overwrite(a, KIND_AT, U32Bytes(req.kind)), HINT_AT, req.hint, KIND_AT, HINT_AT);
  }

  lemma StatusKeepsKind(f: Frame, st: Status)
    ensures WithStatus(f, st)[KIND_AT..HINT_AT] == f[KIND_AT..HINT_AT]
  {
    hide Overwrite, U32Bytes;
    OverwriteKeeps(f, STATUS_AT, U32Bytes(st), KIND_AT, HINT_AT);
  }

  lemma ExecutedKind(fs: FileSystem, was: Frame, req: Request)
    requires KeepKinds(fs)
    ensures Executed(fs, was, req)[KIND_AT..HINT_AT] == U32Bytes(req.kind)
  {
    hide Blank, WithStatus, U32Bytes;
    BlankKind(was, req);
    StatusKeepsKind(Blank(was, req), STATUS_INVALID_DEVICE_REQUEST);
    StatusKeepsKind(Blank(was, req), fs.enter(req));
    var (f, st) := fs.operate(req, WithStatus(Blank(was, req), fs.enter(req)));
    StatusKeepsKind(f, st);
  }

  /** A response that is handed back is of the kind of its request. */
  lemma AnswerKind(fs: FileSystem, was: Frame, req: Request)
    requires KeepHeaders(fs) && KeepKinds(fs) && !Pending(fs, was, req)
    ensures U32At(Answer(fs, was, req), 4) == req.kind
  {
    hide Blank, WithStatus, Executed, Overwrite, U32Bytes;
    ExecutedKeeps(fs, was, req);
    ExecutedKind(fs, was, req);
    var executed, f := Executed(fs, was, req), Answer(fs, was, req);
    var size := SizeOf(executed);
    if RSP_SIZEMAX < AlignUp(size) {
      BlankKind(executed, req);
      StatusKeepsKind(Blank(executed, req), STATUS_INVALID_DEVICE_REQUEST);
    } else {
      PaddedIs(executed, size);
      SameHint(f, executed, size);
    }
    forall i | 0 <= i < 4 ensures f[4 + i] == U32Bytes(req.kind)[i] { assert f[4 + i] == f[4..8][i]; }
  }

  lemma AnswerKeeps(fs: FileSystem, was: Frame, req: Request)
    requires KeepHeaders(fs)
    ensures SizeOf(Answer(fs, was, req)) == 0 <==> Pending(fs, was, req)
    ensures !Pending(fs, was, req) ==>
              HEADER_SIZE <= SizeOf(Answer(fs, was, req)) <= RSP_SIZEMAX &&
              Answer(fs, was, req)[HINT_AT..HINT_AT + 8] == req.hint
  {
    hide Blank, WithStatus, Executed, Overwrite;
    ExecutedKeeps(fs, was, req);
    var executed := Executed(fs, was, req);
    var size := SizeOf(executed);
    BlankSize(executed, req);
    StatusKeeps(Blank(executed, req), STATUS_INVALID_DEVICE_REQUEST);
    BlankIsNotHanded(executed);
    if AlignUp(size) <= RSP_SIZEMAX && StatusOf(executed) != STATUS_PENDING {
      PaddedIs(executed, size);
      SameHint(Answer(fs, was, req), executed, size);
    }
  }

  /** The status a request ends with: that of its operation, unless the response is too large. */
  ghost function StatusFor(fs: FileSystem, was: Frame, req: Request): Status
  {
    if req.kind !in fs.supported || RSP_SIZEMAX < AlignUp(SizeOf(Executed(fs, was, req)))
    then STATUS_INVALID_DEVICE_REQUEST
    else if !Success(fs.enter(req)) then fs.enter(req)
    else fs.operate(req, WithStatus(Blank(was, req), fs.enter(req))).1
  }

  /** The requests that are answered at once, with the status each ends with. */
  ghost function Answered(fs: FileSystem, was: Frame, incoming: seq<Option<Request>>): seq<(Request, Status)>
  {
    if incoming == [] then []
    else
      var rest, req := Answered(fs, was, incoming[..|incoming| - 1]), incoming[|incoming| - 1];
      var before := After(fs, was, incoming[..|incoming| - 1]);
      if req.None? || Pending(fs, before, req.value) then rest
        else rest + [(req.value, StatusFor(fs, before, req.value))]
  }

  /** Responses go back in the order of their requests, one for each request that is not left pending, under
      its hint, with its kind, and with the status it ends with. */
  lemma {:induction false} RespondedInOrder(fs: FileSystem, was: Frame, incoming: seq<Option<Request>>)
    requires KeepHeaders(fs)
    ensures var handed, answered := AllHanded(fs, was, incoming), Answered(fs, was, incoming);
            |handed| == |answered| && forall k :: 0 <= k < |handed| ==>
              && |handed[k]| >= 24
              && handed[k][8..16] == answered[k].0.hint
              && (KeepKinds(fs) ==> U32At(handed[k], 4) == answered[k].0.kind)
              && U32At(handed[k], 20) == answered[k].1
  {
    hide Answer, Pending, SizeOf, StatusFor, Cleared, KeepKinds;
    if incoming != [] {
      RespondedInOrder(fs, was, incoming[..|incoming| - 1]);
      var req := incoming[|incoming| - 1];
      var before := After(fs, was, incoming[..|incoming| - 1]);
      if req.Some? {
        AnswerKeeps(fs, before, req.value);
        OneHanded(Answer(fs, before, req.value), req.value.hint);
        AnswerStatus(fs, before, req.value);
        if KeepKinds(fs) && !Pending(fs, before, req.value) { AnswerKind(fs, before, req.value); }
      }
      BlankIsNotHanded(before);
    }
  }

  lemma BlankIsNotHanded(was: Frame)
    ensures SizeOf(Cleared(was)) == 0 && Handed(Cleared(was)) == []
  {
    var m := Cleared(was);
    assert m[2] == m[0..RSP_SIZE][2] && m[3] == m[0..RSP_SIZE][3];
  }

  lemma StatusWritten(f: Frame, st: Status)
    ensures StatusOf(WithStatus(f, st)) == st
  {
    var m, bytes := WithStatus(f, st), U32Bytes(st);
    assert m[STATUS_AT..STATUS_AT + 4] == bytes;
    forall i | 0 <= i < 4 ensures m[STATUS_AT + i] == bytes[i] {
      assert m[STATUS_AT + i] == m[STATUS_AT..STATUS_AT + 4][i];
    }
  }

  lemma ExecutedStatus(fs: FileSystem, was: Frame, req: Request)
    requires AlignUp(SizeOf(Executed(fs, was, req))) <= RSP_SIZEMAX
    ensures StatusOf(Executed(fs, was, req)) == StatusFor(fs, was, req)
  {
    hide Blank, WithStatus, SizeOf, StatusOf;
    StatusWritten(Blank(was, req), STATUS_INVALID_DEVICE_REQUEST);
    StatusWritten(Blank(was, req), fs.enter(req));
    var (f, st) := fs.operate(req, WithStatus(Blank(was, req), fs.enter(req)));
    StatusWritten(f, st);
  }

  /** A response that is handed back carries that status. */
  lemma AnswerStatus(fs: FileSystem, was: Frame, req: Request)
    requires KeepHeaders(fs)
    ensures !Pending(fs, was, req) ==> StatusOf(Answer(fs, was, req)) == StatusFor(fs, was, req)
  {
    hide Blank, WithStatus, Executed, Overwrite, StatusFor, StatusOf;
    ExecutedKeeps(fs, was, req);
    var executed := Executed(fs, was, req);
    var size := SizeOf(executed);
    if RSP_SIZEMAX < AlignUp(size) {
      StatusWritten(Blank(executed, req), STATUS_INVALID_DEVICE_REQUEST);
      OversizeStatus(fs, was, req);
    } else if !Pending(fs, was, req) {
      PaddedIs(executed, size);
      ExecutedStatus(fs, was, req);
      SameStatus(Answer(fs, was, req), executed, size);
    }
  }

  /** That status in numbers, and when there is none yet. */
  lemma StatusIs(fs: FileSystem, was: Frame, req: Request)
    ensures var entered := Overwrite(Blank(was, req), 20, U32Bytes(fs.enter(req)));
            var supported, started := req.kind in fs.supported, fs.enter(req) < 0x8000_0000;
            var (f, st) := fs.operate(req, entered);
            var size := if supported && started then U16At(f, 2) else 128;
            && (Pending(fs, was, req) <==> supported && started && st == 0x103 && size <= 16384)
            && StatusFor(fs, was, req) == if !supported || size > 16384 then 0xC000_0010
                                          else if !started then fs.enter(req) else st
  {
    hide Blank, Overwrite, SizeOf, U32Bytes;
    var entered := WithStatus(Blank(was, req), fs.enter(req));
    var (f, st) := fs.operate(req, entered);
    BlankSize(was, req);
    StatusKeeps(Blank(was, req), STATUS_INVALID_DEVICE_REQUEST);
    StatusKeeps(Blank(was, req), fs.enter(req));
    StatusKeeps(f, st);
    SizeIsAt2(f);
    StatusWritten(Blank(was, req), STATUS_INVALID_DEVICE_REQUEST);
    StatusWritten(Blank(was, req), fs.enter(req));
    StatusWritten(f, st);
  }

  lemma SizeIsAt2(f: Frame)
    ensures SizeOf(f) == U16At(f, 2) < 0x1_0000
  {
  }

  lemma OversizeStatus(fs: FileSystem, was: Frame, req: Request)
    requires RSP_SIZEMAX < AlignUp(SizeOf(Executed(fs, was, req)))
    ensures StatusFor(fs, was, req) == STATUS_INVALID_DEVICE_REQUEST
  {
  }

  lemma SameStatus(f: Frame, f': Frame, size: nat)
    requires HEADER_SIZE <= size <= RSP_SIZEMAX && f[KIND_AT..size] == f'[KIND_AT..size]
    ensures StatusOf(f) == StatusOf(f')
  {
    forall i | STATUS_AT <= i < STATUS_AT + 4 ensures f[i] == f'[i] {
      assert f[i] == f[KIND_AT..size][i - KIND_AT] && f'[i] == f'[KIND_AT..size][i - KIND_AT];
    }
  }

  lemma OneHanded(f: Frame, hint: Hint)
    ensures SizeOf(f) == 0 ==> Handed(f) == []
    ensures HEADER_SIZE <= SizeOf(f) <= RSP_SIZEMAX && f[HINT_AT..HINT_AT + 8] == hint ==>
              |Handed(f)| == 1 && |Handed(f)[0]| >= HEADER_SIZE && Handed(f)[0][HINT_AT..HINT_AT + 8] == hint &&
              U32At(Handed(f)[0], STATUS_AT) == StatusOf(f) && U32At(Handed(f)[0], KIND_AT) == U32At(f, KIND_AT)
  {
    hide SizeOf;
    if HEADER_SIZE <= SizeOf(f) <= RSP_SIZEMAX { SliceOfTake(f, SizeOf(f), HINT_AT, HINT_AT + 8); }
  }
}
