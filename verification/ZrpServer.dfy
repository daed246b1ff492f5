/**
 The ZRP file server of libc/zrpsrv.c, as a program links it: a tree of nodes, the
 client's fids on them, and reads that are answered later. The pipe is the parameter of
 `Handle` on the way in and `log` on the way out; the program's callbacks are arbitrary,
 given by `program`, a behaviour for each callback in the order they are made.
 */
module ZrpServer {
  import opened ZrpMessages
  import opened ZrpState

  const TVERSION := 1
  const TATTACH := 3
  const TWALK := 5
  const TREAD := 7
  const TWRITE := 9
  const TCLUNK := 11
  const TSTAT := 13

  const ENOENT := 2
  const EBADF := 9
  const ENOMEM := 12
  const ENOTDIR := 20
  const EISDIR := 21
  const EINVAL := 22
  const EROFS := 30
  const EPROTO := 71

  const ZRP2: seq<Byte> := [0x5A, 0x52, 0x50, 0x32]
  const SLASH: Byte := 47
  const DOT: Byte := 46

  /** What a program may do to the server, from a callback or on its own. */
  datatype Op =
    | Add(dir: nat, name: seq<Byte>, kind: Byte)
    | Remove(node: nat)
    | SetLength(node: nat, length: nat)
    | Respond(req: nat, data: seq<Byte>)
    | RespondError(req: nat, err: nat)

  type Errno = n: nat | n > 0 witness 1
  datatype ReadResult = Data(data: seq<Byte>) | Deferred | ReadError(err: Errno)
  datatype WriteResult = Taken(count: nat) | WriteError(err: Errno)

  /** What one callback does, and what it returns. */
  datatype Behaviour = Behaviour(ops: seq<Op>, read: ReadResult, write: WriteResult)

  /** Which callbacks the program supplies. */
  datatype Ops = Ops(read: bool, write: bool, clunk: bool)

  function Min(a: nat, b: nat): nat
  {
    if a < b then a else b
  }

  function Zeros(n: nat): seq<Byte>
  {
    seq(n, _ => 0)
  }

  /** The C string at the front of a buffer. */
  function CStr(s: seq<Byte>): (c: seq<Byte>)
    ensures c <= s && 0 !in c
  {
    if s == [] || s[0] == 0 then [] else [s[0]] + CStr(s[1..])
  }

  predicate ValidName(name: seq<Byte>)
  {
    SLASH !in name && name != [DOT] && name != [DOT, DOT]
  }

  predicate HasId(fids: seq<Fid>, id: nat)
  {
    exists i :: 0 <= i < |fids| && fids[i].id == id
  }

  /** The first of the nodes `cs` with a name; |cs| if there is none. */
  function Lookup(nodes: Nodes, cs: seq<nat>, name: seq<Byte>): (k: nat)
    requires forall c :: c in cs ==> c in nodes
    ensures k <= |cs| && (k < |cs| ==> nodes[cs[k]].name == name)
    ensures forall i :: 0 <= i < k ==> nodes[cs[i]].name != name
  {
    if cs == [] then 0
    else if nodes[cs[0]].name == name then 0
    else 1 + Lookup(nodes, cs[1..], name)
  }

  /** The whole stat records, from the front of `cs`, that fit in `room` bytes. */
  function Listing(nodes: Nodes, cs: seq<nat>, room: nat): (d: seq<Byte>)
    requires forall c :: c in cs ==> c in nodes
    ensures |d| <= room
  {
    if cs == [] || |Stat(nodes[cs[0]])| > room then []
    else Stat(nodes[cs[0]]) + Listing(nodes, cs[1..], room - |Stat(nodes[cs[0]])|)
  }

  /** Stat records one after another. */
  function Records(nodes: Nodes, cs: seq<nat>): seq<Byte>
    requires forall c :: c in cs ==> c in nodes
  {
    if cs == [] then [] else Stat(nodes[cs[0]]) + Records(nodes, cs[1..])
  }

  /** A listing is whole records from the front, and as many as fit. */
  lemma {:induction false} ListingIs(nodes: Nodes, cs: seq<nat>, room: nat) returns (m: nat)
    requires forall c :: c in cs ==> c in nodes
    ensures m <= |cs| && Listing(nodes, cs, room) == Records(nodes, cs[..m]) && |Records(nodes, cs[..m])| <= room
    ensures forall k :: m < k <= |cs| ==> |Records(nodes, cs[..k])| > room
    decreases |cs|
  {
    hide Stat;
    m := 0;
    if cs != [] {
      var first := Stat(nodes[cs[0]]);
      forall k | 0 < k <= |cs| ensures Records(nodes, cs[..k]) == first + Records(nodes, cs[1..][..k - 1]) {
        assert cs[..k][1..] == cs[1..][..k - 1];
      }
      if |first| <= room {
        m := ListingIs(nodes, cs[1..], room - |first|);
        m := m + 1;
      }
    }
  }

  // ----- what is in a request -----

  function U32(b: seq<Byte>, at: nat): nat
    requires at + 4 <= |b|
  {
    LE(b[at..at + 4])
  }

  /** A string, of less than the server's buffer, is whole at a place in a message. */
  predicate HasStr(b: seq<Byte>, at: nat)
  {
    at + 2 <= |b| && at + 2 + LE(b[at..at + 2]) <= |b| && LE(b[at..at + 2]) <= NAME_MAX
  }

  function StrAt(b: seq<Byte>, at: nat): seq<Byte>
    requires HasStr(b, at)
  {
    CStr(b[at + 2..at + 2 + LE(b[at..at + 2])])
  }

  /** The node a walk from `from` reaches, or the error it meets. */
  function WalkTo(nodes: Nodes, from: nat, name: seq<Byte>): (r: int)
    requires TreeOk(nodes) && from in nodes
    ensures r >= 0 ==> r in nodes
  {
    if !ValidName(name) then -EINVAL
    else if nodes[from].removed then -ENOENT
    else if name == [] then from
    else if nodes[from].kind != TYPE_DIR then -ENOTDIR
    else
      assert ChildrenOk(nodes, from);
      var k := Lookup(nodes, nodes[from].children, name);
      if k == |nodes[from].children| then -ENOENT else nodes[from].children[k]
  }

  /** A name no walk accepts: it has a slash, or is "." or "..". */
  predicate OddName(name: seq<Byte>)
  {
    47 in name || name == [46] || name == [46, 46]
  }

  /** The first of a directory's children with a name. */
  ghost predicate FirstNamed(nodes: Nodes, dir: nat, name: seq<Byte>, n: nat)
    requires dir in nodes && forall c :: c in nodes[dir].children ==> c in nodes
  {
    exists j :: 0 <= j < |nodes[dir].children| && nodes[dir].children[j] == n && nodes[n].name == name
                && forall i :: 0 <= i < j ==> nodes[nodes[dir].children[i]].name != name
  }

  ghost predicate NoneNamed(nodes: Nodes, dir: nat, name: seq<Byte>)
    requires dir in nodes && forall c :: c in nodes[dir].children ==> c in nodes
  {
    forall c :: c in nodes[dir].children ==> nodes[c].name != name
  }

  /** Where a walk leads, and each of its errors exactly under its own condition. */
  lemma WalkMeans(nodes: Nodes, from: nat, name: seq<Byte>)
    requires TreeOk(nodes) && from in nodes
    ensures forall c :: c in nodes[from].children ==> c in nodes
    ensures var r, d := WalkTo(nodes, from, name), nodes[from];
            && (r == -EINVAL <==> OddName(name))
            && (r == -ENOENT <==> !OddName(name) && (d.removed || (name != [] && d.kind == TYPE_DIR
                                                                  && NoneNamed(nodes, from, name))))
            && (r == -ENOTDIR <==> !OddName(name) && !d.removed && name != [] && d.kind != TYPE_DIR)
            && (r < 0 ==> r == -EINVAL || r == -ENOENT || r == -ENOTDIR)
            && (r >= 0 && name == [] ==> r == from)
            && (r >= 0 && name != [] ==> FirstNamed(nodes, from, name, r))
  {
    assert ChildrenOk(nodes, from);
    var cs := nodes[from].children;
    var k := Lookup(nodes, cs, name);
    hide Lookup;
    if k == |cs| {
      forall c | c in cs ensures nodes[c].name != name {
        var i :| 0 <= i < |cs| && cs[i] == c;
      }
    } else {
      assert cs[k] in cs;
    }
  }

  /** The fid with an id; |fids| if there is none. */
  function FidAt(fids: seq<Fid>, id: nat): (k: nat)
    ensures k <= |fids| && (k < |fids| <==> HasId(fids, id)) && (k < |fids| ==> fids[k].id == id)
    ensures forall i :: 0 <= i < k ==> fids[i].id != id
  {
    if fids == [] then 0
    else if fids[0].id == id then 0
    else
      var k := FidAt(fids[1..], id);
      assert k < |fids| - 1 ==> fids[k + 1].id == id;
      assert forall i :: 0 < i < |fids| ==> fids[i] == fids[1..][i - 1];
      1 + k
  }

  /** What a request needs of the server: a tree, and fids on its nodes. */
  ghost predicate Ready(nodes: Nodes, fids: seq<Fid>)
  {
    TreeOk(nodes) && ROOT in nodes && forall i :: 0 <= i < |fids| ==> fids[i].node in nodes
  }

  /** Why a new fid can't be made: 0 if it can. */
  function NoFid(fids: seq<Fid>, id: nat, oom: bool): int
  {
    if HasId(fids, id) then -EINVAL else if oom then -ENOMEM else 0
  }

  predicate VersionAsked(b: seq<Byte>)
  {
    |b| >= HEADER + 4 && HasStr(b, HEADER + 4) && StrAt(b, HEADER + 4) == ZRP2 && U32(b, HEADER) >= MSIZE_MIN
  }

  /** The error a request is refused with, before the program hears of it: 0 if it is not. */
  function Refusal(nodes: Nodes, fids: seq<Fid>, ops: Ops, b: seq<Byte>, oom: bool): (e: int)
    requires Ready(nodes, fids) && |b| >= HEADER
    ensures e <= 0
  {
    if b[4] == TVERSION then if VersionAsked(b) then 0 else -EPROTO
    else if b[4] == TATTACH then AttachRefusal(fids, b, oom)
    else if |b| < HEADER + 4 then -EPROTO
    else if !HasId(fids, U32(b, HEADER)) then -EBADF
    else OnFidRefusal(nodes, fids, FidNode(fids, b), ops, b, oom)
  }

  /** The same for the requests on a fid, by its node. */
  function OnFidRefusal(nodes: Nodes, fids: seq<Fid>, n: nat, ops: Ops, b: seq<Byte>, oom: bool): int
    requires TreeOk(nodes) && n in nodes && |b| >= HEADER + 4
  {
    if b[4] == TWALK then WalkRefusal(nodes, fids, n, b, oom)
    else if b[4] == TREAD then ReadRefusal(nodes[n], ops, b, oom)
    else if b[4] == TWRITE then WriteRefusal(nodes[n], ops, b)
    else if b[4] == TCLUNK || b[4] == TSTAT then 0
    else -EPROTO
  }

  /** The node of the fid a request names. */
  function FidNode(fids: seq<Fid>, b: seq<Byte>): nat
    requires |b| >= HEADER + 4 && HasId(fids, U32(b, HEADER))
  {
    fids[FidAt(fids, U32(b, HEADER))].node
  }

  function AttachRefusal(fids: seq<Fid>, b: seq<Byte>, oom: bool): int
  {
    if |b| < HEADER + 4 || !HasStr(b, HEADER + 4) then -EPROTO
    else if StrAt(b, HEADER + 4) != [] then -ENOENT
    else NoFid(fids, U32(b, HEADER), oom)
  }

  function WalkRefusal(nodes: Nodes, fids: seq<Fid>, n: nat, b: seq<Byte>, oom: bool): int
    requires TreeOk(nodes) && n in nodes
  {
    if |b| < HEADER + 8 || !HasStr(b, HEADER + 8) then -EPROTO
    else
      var to := WalkTo(nodes, n, StrAt(b, HEADER + 8));
      if to < 0 then to else NoFid(fids, U32(b, HEADER + 4), oom)
  }

  /** What a walk that meets no error leads to. */
  ghost predicate Finds(nodes: Nodes, from: nat, name: seq<Byte>, to: nat)
    requires from in nodes
  {
    && (forall c :: c in nodes[from].children ==> c in nodes)
    && if name == [] then to == from else FirstNamed(nodes, from, name, to)
  }

  lemma WalkFinds(nodes: Nodes, from: nat, name: seq<Byte>)
    requires TreeOk(nodes) && from in nodes
    ensures var r := WalkTo(nodes, from, name); r >= 0 ==> Finds(nodes, from, name, r)
  {
    hide TreeOk, WalkTo;
    WalkMeans(nodes, from, name);
  }

  ghost predicate WalkErrors(nodes: Nodes, fids: seq<Fid>, n: nat, b: seq<Byte>, e: int, oom: bool)
    requires n in nodes
  {
    && |b| >= HEADER + 8 && HasStr(b, HEADER + 8) && (forall c :: c in nodes[n].children ==> c in nodes)
    && var d, name, taken := nodes[n], StrAt(b, HEADER + 8), HasId(fids, U32(b, HEADER + 4));
       var found := name == [] || (d.kind == TYPE_DIR && !NoneNamed(nodes, n, name));
       && (e == -2 <==> !OddName(name) && (d.removed || (name != [] && d.kind == TYPE_DIR && !found)))
       && (e == -20 <==> !OddName(name) && !d.removed && name != [] && d.kind != TYPE_DIR)
       && (e == -22 <==> OddName(name) || (!d.removed && found && taken))
       && e in {0, -2, -12, -20, -22}
       && (e == -12 <==> !OddName(name) && !d.removed && found && !taken && oom)
       && (e == 0 <==> !OddName(name) && !d.removed && found && !taken && !oom)
  }

  lemma WalkErrorsAre(nodes: Nodes, fids: seq<Fid>, n: nat, b: seq<Byte>, oom: bool)
    requires TreeOk(nodes) && n in nodes && |b| >= HEADER + 8 && HasStr(b, HEADER + 8)
    ensures WalkErrors(nodes, fids, n, b, WalkRefusal(nodes, fids, n, b, oom), oom)
  {
    var name := StrAt(b, HEADER + 8);
    hide TreeOk, WalkTo, HasStr, StrAt;
    WalkMeans(nodes, n, name);
  }

  function ReadRefusal(n: Node, ops: Ops, b: seq<Byte>, oom: bool): int
  {
    if n.removed then -EIO
    else if |b| < HEADER + 12 then -EPROTO
    else if n.kind != TYPE_DIR && ops.read && oom then -ENOMEM
    else 0
  }

  function WriteRefusal(n: Node, ops: Ops, b: seq<Byte>): int
  {
    if |b| < HEADER + 12 || HEADER + 12 + U32(b, HEADER + 8) != |b| then -EPROTO
    else if n.removed then -EIO
    else if n.kind == TYPE_DIR then -EISDIR
    else if !ops.write then -EROFS
    else 0
  }

  /** The last reply is that of a request of a kind, and has been sent since. */
  ghost predicate AnsweredWith(log0: seq<seq<Byte>>, log: seq<seq<Byte>>, kind: Byte)
  {
    |log0| < |log| && |log[|log| - 1]| >= HEADER && log[|log| - 1][4] == kind + 1
  }

  lemma FrameAnswers(log0: seq<seq<Byte>>, log: seq<seq<Byte>>, kind: Byte, tag: nat, body: seq<Byte>)
    requires kind < 255 && |log0| < |log| && log[|log| - 1] == Frame(kind + 1, tag, body)
    ensures AnsweredWith(log0, log, kind)
  {
  }

  /** The node an attach, a walk or a stat that is not refused tells about. */
  function Told(nodes: Nodes, fids: seq<Fid>, ops: Ops, b: seq<Byte>, oom: bool): (n: nat)
    requires Ready(nodes, fids) && |b| >= HEADER && b[4] in {TATTACH, TWALK, TSTAT}
    requires Refusal(nodes, fids, ops, b, oom) == 0
    ensures n in nodes
  {
    if b[4] == TATTACH then ROOT
    else if b[4] == TWALK then WalkTo(nodes, FidNode(fids, b), StrAt(b, HEADER + 8))
    else FidNode(fids, b)
  }

  class Server {
    var nodes: Nodes
    var fids: seq<Fid>
    var deferred: seq<Req>
    var msize: nat
    var log: seq<seq<Byte>>
    var freed: seq<nat>
    var nextNode: nat
    var nextFid: nat
    var calls: nat
    const ops: Ops
    const program: nat -> Behaviour

    var requests: seq<nat>
    ghost var answered: seq<nat>
    ghost var current: multiset<nat>

    /** The part of the invariant that is about the pipe. */
    ghost predicate BookValid()
      reads this
    {
      && MSIZE_MIN <= msize <= MSIZE
      && BookOk(requests, log, answered, deferred, current)
    }

    ghost predicate Valid()
      reads this
    {
      && NodesOk(nodes, fids, -1, freed, nextNode)
      && FidsOk(fids, nextFid)
      && DeferredOk(deferred, fids, msize)
      && BookValid()
    }

    constructor (ops: Ops, program: nat -> Behaviour)
      ensures Valid()
      ensures nodes == map[ROOT := RootNode()] && fids == [] && deferred == [] && log == [] && freed == []
      ensures msize == MSIZE && requests == [] && current == multiset{}
      ensures this.ops == ops && this.program == program
    {
      this.ops, this.program := ops, program;
      nodes := map[ROOT := RootNode()];
      fids, deferred, log, freed := [], [], [], [];
      msize, nextNode, nextFid, calls := MSIZE, 1, 0, 0;
      requests, answered, current := [], [], multiset{};
    }

    /** Replies are only ever added. */
    twostate predicate Grew()
      reads this`log, this`answered
    {
      old(log) <= log && old(answered) <= answered
    }

    // ----- replies -----

    method StartReply(kind: Byte, tag: nat) returns (m: Msg)
      requires msize >= HEADER
      ensures fresh(m) && m.Valid() && |m.buf| == msize && !m.bad && m.pos == HEADER
      ensures m.Head() == [kind] + Bytes(tag, 2) && m.Body() == []
    {
      m := new Msg(Zeros(msize));
      m.Start(kind, tag);
    }

    /** Sends a reply, unless it did not fit. */
    method FinishReply(m: Msg, ghost kind: Byte, ghost tag: nat, ghost serial: nat)
      requires m.Valid() && m.pos >= HEADER && m.Head() == [kind] + Bytes(tag, 2)
      modifies this`log, this`answered, m`buf
      ensures m.bad ==> log == old(log) && answered == old(answered)
      ensures !m.bad ==> log == old(log) + [Frame(kind, tag, old(m.Body()))] && answered == old(answered) + [serial]
      ensures Grew()
    {
      if m.bad {
        return;
      }
      assert m.pos == HEADER + |m.Body()|;
      assert Bytes(m.pos, 4) + ([kind] + Bytes(tag, 2)) + m.Body() == Frame(kind, tag, m.Body());
      var bytes := m.Finish();
      log := log + [bytes];
      answered := answered + [serial];
    }

    method SendError(tag: nat, err: nat, ghost serial: nat)
      requires msize >= MSIZE_MIN
      modifies this`log, this`answered
      ensures log == old(log) + [ErrorFrame(tag, err)] && answered == old(answered) + [serial]
      ensures Grew()
    {
      var m := StartReply(RERROR, tag);
      m.Put(err, 2);
      assert m.Body() == Bytes(err, 2);
      FinishReply(m, RERROR, tag, serial);
    }

    method PutStat(m: Msg, n: Node)
      requires m.Valid() && m.pos >= HEADER
      modifies m
      ensures m.Valid() && |m.buf| == old(|m.buf|) && m.pos >= HEADER
      ensures m.bad <==> old(m.bad) || old(m.pos) + |Stat(n)| > |m.buf|
      ensures !m.bad ==> m.Head() == old(m.Head()) && m.Body() == old(m.Body()) + Stat(n)
    {
      m.Put(n.kind, 1);
      m.Put(n.length, 4);
      m.PutStr(n.name);
      assert old(m.Body()) + Bytes(n.kind, 1) + Bytes(n.length, 4) + Str(n.name) == old(m.Body()) + Stat(n);
    }

    // ----- deferred reads -----

    /** The k-th deferred read is a request that came, with its tag. */
    ghost predicate BookHas(k: nat)
      reads this
      requires BookValid() && k < |deferred|
      ensures BookHas(k)
    {
      deferred[k].serial < |requests| && deferred[k].tag == requests[deferred[k].serial] < 0x10000
    }

    /** Takes the k-th deferred read off the list and sends it an error. */
    method FailAt(k: nat, err: nat)
      requires BookValid() && k < |deferred|
      modifies this`deferred, this`log, this`answered
      ensures BookValid()
      ensures deferred == old(deferred)[..k] + old(deferred)[k + 1..]
      ensures log == old(log) + [ErrorFrame(old(deferred)[k].tag, err)]
      ensures answered == old(answered) + [old(deferred)[k].serial]
      ensures Grew()
    {
      var req := deferred[k];
      FrameReadsBack(RERROR, req.tag, Bytes(err, 2));
      BookAnswerDeferred(requests, log, answered, deferred, current, k, ErrorFrame(req.tag, err));
      deferred := deferred[..k] + deferred[k + 1..];
      SendError(req.tag, err, req.serial);
    }

    /** Deferred reads on the fids `doomed` will never have an answer: each gets EIO. */
    method FailDeferred(doomed: set<nat>)
      requires BookValid()
      modifies this`deferred, this`log, this`answered
      ensures BookValid()
      ensures deferred == Keep(old(deferred), doomed)
      ensures log == old(log) + FailReplies(old(deferred), doomed)
      ensures Grew()
    {
      hide BookValid, ErrorFrame, Keep, FailReplies, Partly, Kept, Failed;
      ghost var d := deferred;
      var i := 0;
      ghost var j := 0;
      NoneLooked(d, doomed);
      KeepStep(d, doomed, 0);
      while i < |deferred|
        invariant 0 <= j <= |d| && i == Kept(d, doomed, j) && deferred == Partly(d, doomed, j)
        invariant log == old(log) + Failed(d, doomed, j) && |deferred| == i + |d| - j
        invariant BookValid() && Grew()
        decreases |d| - j
      {
        KeepStep(d, doomed, j);
        if deferred[i].fid in doomed {
          FailAt(i, EIO);
        } else {
          i := i + 1;
        }
        j := j + 1;
        KeepStep(d, doomed, j);
      }
      AllLooked(d, doomed);
    }

    method FindReq(serial: nat) returns (k: int)
      ensures -1 <= k < |deferred|
      ensures k >= 0 ==> deferred[k].serial == serial
      ensures k < 0 ==> forall i :: 0 <= i < |deferred| ==> deferred[i].serial != serial
    {
      k := 0;
      while k < |deferred|
        invariant 0 <= k <= |deferred|
        invariant forall i :: 0 <= i < k ==> deferred[i].serial != serial
      {
        if deferred[k].serial == serial {
          return;
        }
        k := k + 1;
      }
      k := -1;
    }

    /** Answers a deferred read with data, as much of it as was asked for. */
    method AnswerRead(k: nat, data: seq<Byte>)
      requires Valid() && k < |deferred|
      modifies this`deferred, this`log, this`answered
      ensures Valid()
      ensures deferred == old(deferred)[..k] + old(deferred)[k + 1..]
      ensures var req := old(deferred)[k];
              var len := Min(|data|, req.count);
              && log == old(log) + [Frame(TREAD + 1, req.tag, Bytes(len, 4) + data[..len])]
              && answered == old(answered) + [req.serial]
      ensures Grew()
    {
      hide BookOk, NodesOk, FidsOk, Frame;
      var req := deferred[k];
      assert req.tag < 0x10000 by { assert BookHas(k); }
      deferred := deferred[..k] + deferred[k + 1..];
      var m := StartReply(TREAD + 1, req.tag);
      var len := Min(|data|, req.count);
      m.Put(len, 4);
      m.PutBytes(data[..len]);
      ghost var body := Bytes(len, 4) + data[..len];
      assert m.Body() == body;
      FinishReply(m, TREAD + 1, req.tag, req.serial);
      FrameReadsBack(TREAD + 1, req.tag, body);
      BookAnswerDeferred(requests, old(log), old(answered), old(deferred), current, k,
                         Frame(TREAD + 1, req.tag, body));
    }

    method AnswerReadError(k: nat, err: nat)
      requires Valid() && k < |deferred|
      modifies this`deferred, this`log, this`answered
      ensures Valid()
      ensures deferred == old(deferred)[..k] + old(deferred)[k + 1..]
      ensures log == old(log) + [ErrorFrame(old(deferred)[k].tag, err)]
      ensures answered == old(answered) + [old(deferred)[k].serial]
      ensures Grew()
    {
      hide BookOk, NodesOk, FidsOk, Frame;
      FailAt(k, err);
    }

    // ----- the tree -----

    /** A new, empty node at the end of a directory; its name is cut to fit. */
    method AddNode(dir: nat, name: seq<Byte>, kind: Byte) returns (n: nat)
      requires Valid() && InTree(nodes, dir)
      modifies this`nodes, this`nextNode
      ensures Valid()
      ensures n == old(nextNode) && nextNode == n + 1
      ensures nodes == Added(old(nodes), dir, n, CStr(name)[..Min(|CStr(name)|, NAME_MAX)], kind)
    {
      hide BookOk;
      var short := CStr(name)[..Min(|CStr(name)|, NAME_MAX)];
      NodesAdd(nodes, fids, freed, nextNode, dir, short, kind);
      n := nextNode;
      nodes := Added(nodes, dir, n, short, kind);
      nextNode := nextNode + 1;
    }

    method SetNodeLength(n: nat, length: nat)
      requires Valid() && n in nodes
      modifies this`nodes
      ensures Valid() && nodes == old(nodes)[n := old(nodes)[n].(length := length)]
    {
      hide BookOk;
      NodesSetLength(nodes, fids, freed, nextNode, n, length);
      nodes := nodes[n := nodes[n].(length := length)];
    }

    method IndexOfChild(p: nat, n: nat) returns (k: nat)
      requires p in nodes && n in nodes[p].children
      ensures k < |nodes[p].children| && nodes[p].children[k] == n
    {
      k := 0;
      while nodes[p].children[k] != n
        invariant k < |nodes[p].children| && n in nodes[p].children[k..]
        decreases |nodes[p].children| - k
      {
        k := k + 1;
      }
    }

    /** Takes a node and everything below it out of the tree: `cut` is what went. Those of them
        that no fid is on are freed; reads deferred on them are answered with EIO. */
    method RemoveNode(n: nat) returns (ghost cut: set<nat>)
      requires Valid() && n != ROOT && InTree(nodes, n)
      modifies this`nodes, this`deferred, this`log, this`answered, this`freed
      ensures Valid()
      ensures IsCut(old(nodes), n, cut) && Pruned(old(nodes), nodes, n, cut)
      ensures deferred == Keep(old(deferred), PtrsOn(fids, cut))
      ensures |log| - |old(log)| == |old(deferred)| - |deferred|
      ensures forall j :: |old(log)| <= j < |log| ==> IsEio(log[j])
      ensures Grew()
      decreases nextNode - n
    {
      hide BookOk, NodesOk, TreeOk, FidsOk, DeferredOk, Pruning, IsCut, PtrsOn, Keep, IsEio;
      ghost var gone: set<nat> := {};
      ghost var k := 0;
      ghost var a := nodes;
      NodesHaveTree(nodes, fids, -1, freed, nextNode);
      PruneStart(nodes, n);
      KeepAll(deferred, fids);
      while nodes[n].children != []
        invariant Valid() && InTree(nodes, n)
        invariant k <= |a[n].children| && Pruning(a, nodes, n, k, gone)
        invariant deferred == Keep(old(deferred), PtrsOn(fids, gone))
        invariant Grew() && |log| - |old(log)| == |old(deferred)| - |deferred|
        invariant forall j :: |old(log)| <= j < |log| ==> IsEio(log[j])
        decreases |a[n].children| - k
      {
        var c := nodes[n].children[0];
        ghost var b := nodes;
        RemoveChild(a, n, k, gone);
        ghost var below := RemoveNode(c);
        NodesHaveTree(nodes, fids, -1, freed, nextNode);
        PruneStep(a, b, nodes, n, k, gone, below);
        PruningRoot(a, nodes, n, k + 1, gone + below);
        KeepOn(old(deferred), fids, gone, below);
        gone, k := gone + below, k + 1;
      }
      cut := gone + {n};
      PruningRoot(a, nodes, n, k, gone);
      PruneEnd(a, nodes, n, gone);
      Unlink(n, a, gone);
      KeepOn(old(deferred), fids, gone, {n});
    }

    lemma RemoveChild(a: Nodes, n: nat, k: nat, gone: set<nat>)
      requires Valid() && InTree(nodes, n) && nodes[n].children != []
      requires n in a && k <= |a[n].children| && Pruning(a, nodes, n, k, gone)
      ensures var c := nodes[n].children[0];
              c != ROOT && InTree(nodes, c) && n < c < nextNode && k < |a[n].children| && c == a[n].children[k]
      ensures TreeOk(nodes)
    {
      hide BookOk;
      assert ChildrenOk(nodes, n) && nodes[n].children[0] in nodes[n].children;
    }

    static lemma PruningRoot(a: Nodes, b: Nodes, n: nat, k: nat, gone: set<nat>)
      requires n in a && k <= |a[n].children| && Pruning(a, b, n, k, gone)
      ensures n in b && b[n] == a[n].(children := a[n].children[k..])
    {
    }

    static lemma KeepAll(d: seq<Req>, fids: seq<Fid>)
      ensures Keep(d, PtrsOn(fids, {})) == d
    {
      KeepNone(d, PtrsOn(fids, {}));
    }

    static lemma KeepOn(d: seq<Req>, fids: seq<Fid>, some: set<nat>, more: set<nat>)
      ensures Keep(Keep(d, PtrsOn(fids, some)), PtrsOn(fids, more)) == Keep(d, PtrsOn(fids, some + more))
    {
      KeepTwice(d, PtrsOn(fids, some), PtrsOn(fids, more));
      assert PtrsOn(fids, some) + PtrsOn(fids, more) == PtrsOn(fids, some + more);
    }

    static predicate IsEio(m: seq<Byte>)
    {
      |m| >= HEADER && m == ErrorFrame(TagOf(m), EIO)
    }

    /** The last part of removing n, once it has no children. */
    method Unlink(n: nat, ghost a: Nodes, ghost gone: set<nat>)
      requires Valid() && n != ROOT && InTree(nodes, n) && nodes[n].children == []
      requires n in a && InTree(a, n) && TreeOk(a) && Pruning(a, nodes, n, |a[n].children|, gone)
      modifies this`nodes, this`deferred, this`log, this`answered, this`freed
      ensures Valid()
      ensures Pruned(a, nodes, n, gone + {n})
      ensures deferred == Keep(old(deferred), PtrsOn(fids, {n}))
      ensures |log| - |old(log)| == |old(deferred)| - |deferred|
      ensures forall j :: |old(log)| <= j < |log| ==> IsEio(log[j])
      ensures Grew()
    {
      hide BookOk, DeferredOk, FidsOk, NodesOk, Keep, IsEio, Pruning;
      UnlinkStart(n, a, gone);
      var p := nodes[n].parent;
      var k := IndexOfChild(p, n);
      NodesUnlink(nodes, fids, freed, nextNode, n, k);
      PruneSelf(a, nodes, if nodes[n].refs == 0 then Unlinked(nodes, n, k) - {n} else Unlinked(nodes, n, k),
                n, gone, k);
      hide Pruned, TreeOk;
      nodes := Unlinked(nodes, n, k);
      FailReadsOn(PtrsOn(fids, {n}));
      if nodes[n].refs == 0 {
        freed := freed + [n];
        nodes := nodes - {n};
      }
    }

    lemma UnlinkStart(n: nat, a: Nodes, gone: set<nat>)
      requires Valid() && n != ROOT && InTree(nodes, n)
      requires n in a && Pruning(a, nodes, n, |a[n].children|, gone)
      ensures ParentOk(nodes, n) && nodes[n].parent == a[n].parent && nodes[n].refs == a[n].refs
    {
      hide BookOk;
      assert ParentOk(nodes, n);
    }

    /** FailDeferred, where the reads that stay are still on live fids. */
    method FailReadsOn(doomed: set<nat>)
      requires BookValid() && DeferredOk(deferred, fids, msize)
      modifies this`deferred, this`log, this`answered
      ensures BookValid() && DeferredOk(deferred, fids, msize)
      ensures deferred == Keep(old(deferred), doomed)
      ensures |log| - |old(log)| == |old(deferred)| - |deferred|
      ensures forall j :: |old(log)| <= j < |log| ==> IsEio(log[j])
      ensures Grew()
    {
      DeferredKeep(deferred, fids, msize, doomed);
      FailRepliesAreEio(deferred, doomed);
      hide BookOk, DeferredOk, IsEio;
      FailDeferred(doomed);
    }

    // ----- what the program does -----

    /** Whether taking n out would answer no deferred read. */
    method NoReadsUnder(n: nat) returns (quiet: bool)
      requires Valid() && n != ROOT && InTree(nodes, n)
      ensures quiet ==> forall cut :: IsCut(nodes, n, cut) ==> Keep(deferred, PtrsOn(fids, cut)) == deferred
    {
      hide BookOk, FidsOk, FreedOk, Keep, NamesOk, LingersOk;
      var i := 0;
      while i < |deferred|
        invariant 0 <= i <= |deferred|
        invariant forall x, y :: 0 <= x < i && 0 <= y < |fids| && fids[y].ptr == deferred[x].fid ==>
                    !(InTree(nodes, fids[y].node) && Under(nodes, fids[y].node, n))
      {
        var j := 0;
        while j < |fids|
          invariant 0 <= j <= |fids|
          invariant forall y :: 0 <= y < j && fids[y].ptr == deferred[i].fid ==>
                      !(InTree(nodes, fids[y].node) && Under(nodes, fids[y].node, n))
        {
          var node := fids[j].node;
          if fids[j].ptr == deferred[i].fid && !nodes[node].removed && Under(nodes, node, n) {
            return false;
          }
          j := j + 1;
        }
        i := i + 1;
      }
      forall cut | IsCut(nodes, n, cut) ensures Keep(deferred, PtrsOn(fids, cut)) == deferred {
        forall x | 0 <= x < |deferred| ensures deferred[x].fid !in PtrsOn(fids, cut) {
          if deferred[x].fid in PtrsOn(fids, cut) {
            var y :| 0 <= y < |fids| && fids[y].node in cut && fids[y].ptr == deferred[x].fid;
            CutIsSubtree(nodes, n, cut, fids[y].node);
          }
        }
        KeepNone(deferred, PtrsOn(fids, cut));
      }
      return true;
    }

    /** A waiting read has been answered with a frame, and nothing else; or there is no such read, and nothing. */
    twostate predicate AnsweredLate(serial: nat, reply: (Req) -> seq<Byte>)
      reads this
    {
      if exists k :: 0 <= k < |old(deferred)| && old(deferred)[k].serial == serial
      then exists k :: 0 <= k < |old(deferred)| && old(deferred)[k].serial == serial
                       && deferred == old(deferred)[..k] + old(deferred)[k + 1..]
                       && log == old(log) + [reply(old(deferred)[k])]
      else deferred == old(deferred) && log == old(log)
    }

    /** As much of the data as the read asked for. */
    static function DataFor(req: Req, data: seq<Byte>): seq<Byte>
    {
      ReadFrame(req.tag, data[..Min(|data|, req.count)])
    }

    /** What that comes to. */
    twostate predicate Did(op: Op, quiet: bool)
      reads this
    {
      match op
      case Add(dir, name, kind) =>
        && log == old(log) && deferred == old(deferred)
        && nodes == if dir in old(nodes) && !old(nodes)[dir].removed
                    then Added(old(nodes), dir, old(nextNode), CStr(name)[..Min(|CStr(name)|, NAME_MAX)], kind)
                    else old(nodes)
      case Remove(n) =>
        !quiet && n in old(nodes) && n != ROOT && !old(nodes)[n].removed ==>
          exists cut :: && IsCut(old(nodes), n, cut) && Pruned(old(nodes), nodes, n, cut)
                        && deferred == Keep(old(deferred), PtrsOn(fids, cut))
      case SetLength(n, length) =>
        && log == old(log) && deferred == old(deferred)
        && nodes == if n in old(nodes) then old(nodes)[n := old(nodes)[n].(length := length)] else old(nodes)
      case Respond(serial, data) =>
        nodes == old(nodes) && (!quiet ==> AnsweredLate(serial, (r: Req) => DataFor(r, data)))
      case RespondError(serial, err) =>
        nodes == old(nodes) && (!quiet ==> AnsweredLate(serial, (r: Req) => ErrorFrame(r.tag, err)))
    }

    /** One thing a program does, if the server's interface allows it then. A read callback is
        `quiet`: its reply is half made in the buffer, so it must not answer other requests. */
    method Do(op: Op, quiet: bool)
      requires Valid()
      modifies this`nodes, this`nextNode, this`deferred, this`log, this`answered, this`freed
      ensures Valid()
      ensures forall r :: r in deferred ==> r in old(deferred)
      ensures quiet ==> log == old(log) && deferred == old(deferred)
      ensures Grew()
      ensures Did(op, quiet)
    {
      hide BookOk, NodesOk, FidsOk, DeferredOk, Keep, TreeOk, IsCut, Pruned, PtrsOn, Frame, Added, CStr;
      match op
      case Add(dir, name, kind) =>
        if dir in nodes && !nodes[dir].removed {
          var n := AddNode(dir, name, kind);
        }
      case Remove(n) =>
        if n in nodes && n != ROOT && !nodes[n].removed {
          var ok := true;
          if quiet {
            ok := NoReadsUnder(n);
          }
          if ok {
            ghost var cut := RemoveNode(n);
            KeepIsWhatStays(old(deferred), PtrsOn(fids, cut));
            assert quiet ==> |log| == |old(log)|;
          }
        }
      case SetLength(n, length) =>
        if n in nodes {
          SetNodeLength(n, length);
        }
      case Respond(serial, data) =>
        var k := FindReq(serial);
        if k >= 0 && !quiet {
          AnswerRead(k, data);
        }
      case RespondError(serial, err) =>
        var k := FindReq(serial);
        if k >= 0 && !quiet {
          AnswerReadError(k, err);
        }
    }

    /** A callback: whatever the program does in it, and what it returns. */
    method Callback(quiet: bool) returns (b: Behaviour)
      requires Valid()
      modifies this`nodes, this`nextNode, this`deferred, this`log, this`answered, this`freed, this`calls
      ensures Valid()
      ensures b == program(old(calls)) && calls == old(calls) + 1
      ensures forall r :: r in deferred ==> r in old(deferred)
      ensures quiet ==> log == old(log) && deferred == old(deferred)
      ensures Grew()
    {
      hide BookOk, NodesOk, FidsOk, DeferredOk, Did;
      b := program(calls);
      calls := calls + 1;
      for i := 0 to |b.ops|
        invariant Valid() && Grew() && calls == old(calls) + 1
        invariant forall r :: r in deferred ==> r in old(deferred)
        invariant quiet ==> log == old(log) && deferred == old(deferred)
      {
        Do(b.ops[i], quiet);
      }
    }

    // ----- fids -----

    method FindFid(id: nat) returns (k: int)
      ensures -1 <= k < |fids|
      ensures k < 0 <==> !HasId(fids, id)
      ensures k >= 0 ==> k == FidAt(fids, id) && fids[k].id == id
    {
      k := 0;
      while k < |fids|
        invariant 0 <= k <= |fids|
        invariant forall i :: 0 <= i < k ==> fids[i].id != id
      {
        if fids[k].id == id {
          return;
        }
        k := k + 1;
      }
      k := -1;
    }

    method NewFid(id: nat, n: nat, oom: bool) returns (rc: int)
      requires Valid() && n in nodes
      modifies this`fids, this`nodes, this`nextFid
      ensures Valid()
      ensures rc == NoFid(old(fids), id, oom)
      ensures rc != 0 ==> fids == old(fids) && nodes == old(nodes)
      ensures rc == 0 ==> fids == [Fid(old(nextFid), id, n)] + old(fids)
                          && nodes == old(nodes)[n := old(nodes)[n].(refs := old(nodes)[n].refs + 1)]
    {
      hide BookOk, NodesOk;
      var k := FindFid(id);
      if k >= 0 {
        return -EINVAL;
      }
      if oom {
        return -ENOMEM;
      }
      var f := Fid(nextFid, id, n);
      NodesNewFid(nodes, fids, freed, nextNode, f);
      DeferredMoreFids(deferred, fids, msize, f);
      hide DeferredOk;
      nodes := nodes[n := nodes[n].(refs := nodes[n].refs + 1)];
      fids := [f] + fids;
      nextFid := nextFid + 1;
      rc := 0;
    }

    static lemma DeferredMoreFids(d: seq<Req>, fids: seq<Fid>, msize: nat, f: Fid)
      requires DeferredOk(d, fids, msize)
      ensures DeferredOk(d, [f] + fids, msize)
    {
      forall i | 0 <= i < |d| ensures Live([f] + fids, d[i].fid) {
        assert Live(fids, d[i].fid);
        var j :| 0 <= j < |fids| && fids[j].ptr == d[i].fid;
        assert ([f] + fids)[j + 1] == fids[j];
      }
    }

    /** Puts the reference a fid that has gone had on its node. */
    method NodePut(n: nat)
      requires NodesOk(nodes, fids, n, freed, nextNode) && n in nodes
      modifies this`nodes, this`freed
      ensures NodesOk(nodes, fids, -1, freed, nextNode)
      ensures nodes == Put(old(nodes), n)
      ensures freed == if n in nodes then old(freed) else old(freed) + [n]
    {
      NodesPut(nodes, fids, freed, nextNode, n);
      hide NodesOk;
      nodes := nodes[n := nodes[n].(refs := nodes[n].refs - 1)];
      if nodes[n].refs == 0 && nodes[n].removed {
        freed := freed + [n];
        nodes := nodes - {n};
        assert nodes == Put(old(nodes), n);
      }
    }

    /** Lets a fid go: reads deferred on it get EIO, the program hears of it, and then it and,
        if it was the last on a removed node, that node are freed. */
    method Clunk(k: nat)
      requires Valid() && k < |fids|
      modifies this`nodes, this`nextNode, this`deferred, this`log, this`answered, this`freed, this`calls, this`fids
      ensures Valid()
      ensures fids == old(fids)[..k] + old(fids)[k + 1..]
      ensures forall r :: r in deferred ==> r in old(deferred) && r.fid != old(fids)[k].ptr
      ensures Grew()
    {
      hide BookOk, NodesOk, FidsOk, Keep;
      var f := fids[k];
      FailReadsOn({f.ptr});
      KeepIsWhatStays(old(deferred), {f.ptr});
      if ops.clunk {
        var _ := Callback(false);
      }
      NodesDropFid(nodes, fids, freed, nextNode, k);
      FidHolds(k);
      FidsWithout(fids, nextFid, k);
      DeferredFewerFids(deferred, fids, msize, k);
      hide DeferredOk;
      fids := fids[..k] + fids[k + 1..];
      NodePut(f.node);
    }

    lemma FidHolds(k: nat)
      requires Valid() && k < |fids|
      ensures fids[k].node in nodes
    {
      hide BookOk, FidsOk, DeferredOk, TreeOk, FreedOk;
    }

    static lemma FidsWithout(fids: seq<Fid>, next: nat, k: nat)
      requires FidsOk(fids, next) && k < |fids|
      ensures FidsOk(fids[..k] + fids[k + 1..], next)
    {
    }

    static lemma DeferredFewerFids(d: seq<Req>, fids: seq<Fid>, msize: nat, k: nat)
      requires DeferredOk(d, fids, msize) && k < |fids|
      requires forall r :: r in d ==> r.fid != fids[k].ptr
      ensures DeferredOk(d, fids[..k] + fids[k + 1..], msize)
    {
      var rest := fids[..k] + fids[k + 1..];
      forall i | 0 <= i < |d| ensures Live(rest, d[i].fid) {
        assert Live(fids, d[i].fid) && d[i] in d;
        var j :| 0 <= j < |fids| && fids[j].ptr == d[i].fid;
        assert rest[if j < k then j else j - 1] == fids[j];
      }
    }

    method ClunkAll()
      requires Valid()
      modifies this`nodes, this`nextNode, this`deferred, this`log, this`answered, this`freed, this`calls, this`fids
      ensures Valid()
      ensures fids == [] && deferred == []
      ensures Grew()
    {
      hide BookOk, NodesOk, FidsOk;
      while fids != []
        invariant Valid() && Grew()
        decreases |fids|
      {
        Clunk(0);
      }
      assert deferred != [] ==> !Live(fids, deferred[0].fid);
    }

    // ----- requests -----

    ghost predicate Serving(serial: nat, tag: nat)
      reads this
    {
      current == multiset{serial} && serial < |requests| && requests[serial] == tag < 0x10000
    }

    /** Answers the request being served. A reply that did not fit would be dropped, so it must fit. */
    method Answer(m: Msg, ghost kind: Byte, ghost tag: nat, ghost serial: nat)
      requires BookValid() && Serving(serial, tag)
      requires m.Valid() && m.pos >= HEADER && m.Head() == [kind] + Bytes(tag, 2)
      requires !m.bad && |m.buf| == msize
      modifies this`log, this`answered, this`current, m`buf
      ensures BookValid() && current == multiset{}
      ensures log == old(log) + [Frame(kind, tag, old(m.Body()))]
      ensures |Frame(kind, tag, old(m.Body()))| <= msize
      ensures Grew()
    {
      FrameReadsBack(kind, tag, m.Body());
      BookAnswerCurrent(requests, log, answered, deferred, serial, Frame(kind, tag, m.Body()));
      hide BookOk, Frame;
      FinishReply(m, kind, tag, serial);
      current := multiset{};
    }

    method Version(inp: Msg, tag: nat, ghost serial: nat) returns (rc: int)
      requires Valid() && Serving(serial, tag) && inp.Valid() && !inp.bad && inp.pos == HEADER
      modifies this`nodes, this`nextNode, this`deferred, this`log, this`answered, this`freed, this`calls, this`fids,
               this`msize, this`current, inp`pos, inp`bad
      ensures Valid()
      ensures rc == if VersionAsked(inp.buf) then 0 else -EPROTO
      ensures rc != 0 ==> && Serving(serial, tag) && log == old(log) && fids == old(fids) && msize == old(msize)
                          && nodes == old(nodes) && deferred == old(deferred)
      ensures rc == 0 ==> && current == multiset{} && fids == [] && deferred == []
                          && msize == Min(U32(inp.buf, HEADER), MSIZE)
                          && |old(log)| < |log|
                          && log[|log| - 1] == Frame(TVERSION + 1, tag, Bytes(msize, 4) + Str(ZRP2))
      ensures Grew()
    {
      hide BookOk, NodesOk, FidsOk, Frame, LE, CStr, Str, Bytes, HasStr, StrAt, Keep;
      var size := inp.Get(4);
      var name := GetName(inp);
      if inp.bad || name != ZRP2 || size < MSIZE_MIN {
        return -EPROTO;
      }
      ClunkAll();
      msize := if size < MSIZE then size else MSIZE;
      SendVersion(tag, serial);
      rc := 0;
    }

    method SendVersion(tag: nat, ghost serial: nat)
      requires BookValid() && Serving(serial, tag)
      modifies this`log, this`answered, this`current
      ensures BookValid() && current == multiset{}
      ensures log == old(log) + [Frame(TVERSION + 1, tag, Bytes(msize, 4) + Str(ZRP2))]
      ensures Grew()
    {
      hide BookOk, Frame;
      var m := StartReply(TVERSION + 1, tag);
      m.Put(msize, 4);
      m.PutStr(ZRP2);
      assert m.Body() == Bytes(msize, 4) + Str(ZRP2);
      Answer(m, TVERSION + 1, tag, serial);
    }

    /** A name, as the C string the server sees. */
    method GetName(inp: Msg) returns (name: seq<Byte>)
      requires inp.Valid()
      modifies inp`pos, inp`bad
      ensures inp.Valid()
      ensures inp.bad <==> old(inp.bad) || !HasStr(inp.buf, old(inp.pos))
      ensures !inp.bad ==> name == StrAt(inp.buf, old(inp.pos))
      ensures inp.bad ==> name == []
    {
      var text := inp.GetStr(NAME_MAX + 1);
      name := CStr(text);
    }

    method Attach(inp: Msg, tag: nat, ghost serial: nat, oom: bool) returns (rc: int)
      requires Valid() && Serving(serial, tag) && inp.Valid() && !inp.bad && inp.pos == HEADER
      modifies this`fids, this`nodes, this`nextFid, this`log, this`answered, this`current, inp`pos, inp`bad
      ensures Valid()
      ensures rc == AttachRefusal(old(fids), inp.buf, oom) && rc <= 0
      ensures rc != 0 ==> Serving(serial, tag) && log == old(log) && fids == old(fids) && nodes == old(nodes)
      ensures rc == 0 ==> && current == multiset{}
                          && fids == [Fid(old(nextFid), U32(inp.buf, HEADER), ROOT)] + old(fids)
                          && log == old(log) + [Frame(TATTACH + 1, tag, Stat(old(nodes)[ROOT]))]
      ensures Grew()
    {
      hide BookOk, FidsOk, Frame, LE, CStr, RefsOk, FreedOk;
      var id := inp.Get(4);
      var name := GetName(inp);
      if inp.bad {
        return -EPROTO;
      }
      if name != [] {
        return -ENOENT;
      }
      rc := NewFid(id, ROOT, oom);
      if rc != 0 {
        return;
      }
      rc := SendStat(TATTACH + 1, ROOT, tag, serial);
    }

    method FindChild(n: nat, name: seq<Byte>) returns (k: nat)
      requires n in nodes && forall c :: c in nodes[n].children ==> c in nodes
      ensures k == Lookup(nodes, nodes[n].children, name)
    {
      var cs := nodes[n].children;
      k := 0;
      while k < |cs| && nodes[cs[k]].name != name
        invariant k <= |cs|
        invariant Lookup(nodes, cs, name) == k + Lookup(nodes, cs[k..], name)
      {
        assert cs[k..][1..] == cs[k + 1..];
        k := k + 1;
      }
    }

    method Walk(k: nat, inp: Msg, tag: nat, ghost serial: nat, oom: bool) returns (rc: int)
      requires Valid() && Serving(serial, tag) && inp.Valid() && k < |fids| && fids[k].node in nodes
      requires TreeOk(nodes) && !inp.bad && inp.pos == HEADER + 4
      modifies this`fids, this`nodes, this`nextFid, this`log, this`answered, this`current, inp`pos, inp`bad
      ensures Valid()
      ensures rc == WalkRefusal(old(nodes), old(fids), old(fids)[k].node, inp.buf, oom)
      ensures rc == 0 ==>
                var n := WalkTo(old(nodes), old(fids)[k].node, StrAt(inp.buf, HEADER + 8));
                && fids == [Fid(old(nextFid), U32(inp.buf, HEADER + 4), n)] + old(fids)
                && log == old(log) + [Frame(TWALK + 1, tag, Stat(old(nodes)[n]))]
      // the new fid is on the same node for no name, and on the first child of that name for any other
      ensures rc == 0 ==>
                && |inp.buf| >= HEADER + 8 && HasStr(inp.buf, HEADER + 8) && |fids| == |old(fids)| + 1
                && Finds(old(nodes), old(fids)[k].node, StrAt(inp.buf, HEADER + 8), fids[0].node)
      // and each error comes under its own condition
      ensures |inp.buf| >= HEADER + 8 && HasStr(inp.buf, HEADER + 8) ==>
                WalkErrors(old(nodes), old(fids), old(fids)[k].node, inp.buf, rc, oom)
      ensures rc == 0 ==> current == multiset{}
      ensures rc != 0 ==> rc < 0 && Serving(serial, tag) && log == old(log) && fids == old(fids) && nodes == old(nodes)
      ensures Grew()
    {
      hide BookOk, FidsOk, Frame, LE, CStr, RefsOk, FreedOk, Lookup, Finds, WalkErrors;
      assert ChildrenOk(nodes, fids[k].node);
      var newId := inp.Get(4);
      var name := GetName(inp);
      if inp.bad {
        return -EPROTO;
      }
      WalkErrorsAre(nodes, fids, fids[k].node, inp.buf, oom);
      WalkFinds(nodes, fids[k].node, name);
      if !ValidName(name) {
        return -EINVAL;
      }
      var n := fids[k].node;
      if nodes[n].removed {
        return -ENOENT;
      }
      if name != [] {
        if nodes[n].kind != TYPE_DIR {
          return -ENOTDIR;
        }
        assert ChildrenOk(nodes, n);
        var at := FindChild(n, name);
        if at == |nodes[n].children| {
          return -ENOENT;
        }
        n := nodes[n].children[at];
      }
      rc := NewFid(newId, n, oom);
      if rc != 0 {
        return;
      }
      rc := SendStat(TWALK + 1, n, tag, serial);
    }

    /** The reply that is a stat of a node. */
    method SendStat(kind: Byte, n: nat, tag: nat, ghost serial: nat) returns (rc: int)
      requires Valid() && Serving(serial, tag) && n in nodes
      modifies this`log, this`answered, this`current
      ensures Valid() && current == multiset{} && rc == 0
      ensures log == old(log) + [Frame(kind, tag, Stat(nodes[n]))]
      ensures Grew()
    {
      hide BookOk, FidsOk, Frame, RefsOk, FreedOk, TreeOk, DeferredOk;
      var m := StartReply(kind, tag);
      PutStat(m, nodes[n]);
      assert m.Body() == Stat(nodes[n]);
      Answer(m, kind, tag, serial);
      rc := 0;
    }

    /** The reply to a read: how much, and then the bytes. */
    static function ReadFrame(tag: nat, data: seq<Byte>): seq<Byte>
    {
      Frame(TREAD + 1, tag, Bytes(|data|, 4) + data)
    }

    /** A directory read: whole stat records of its entries from the offset-th on, those that fit. */
    method ReadDir(n: nat, offset: nat, count: nat, tag: nat, ghost serial: nat)
      requires Valid() && Serving(serial, tag) && n in nodes && count + HEADER + 4 <= msize
      requires forall c :: c in nodes[n].children ==> c in nodes
      modifies this`log, this`answered, this`current
      ensures Valid() && current == multiset{}
      ensures var cs := nodes[n].children;
              log == old(log) + [ReadFrame(tag, Listing(nodes, cs[Min(offset, |cs|)..], count))]
      ensures Grew()
    {
      hide BookOk, FidsOk, NodesOk, DeferredOk, Frame, Stat, Listing;
      var m := StartReply(TREAD + 1, tag);
      m.Put(0, 4);
      var cs := nodes[n].children;
      var i := 0;
      while i < |cs| && i < offset
        invariant 0 <= i <= Min(offset, |cs|)
        modifies {}
      {
        i := i + 1;
      }
      var used := PutStats(m, cs[i..], count);
      m.PatchBody(used);
      ghost var all := Listing(nodes, cs[i..], count);
      assert m.Body() == Bytes(|all|, 4) + all;
      Answer(m, TREAD + 1, tag, serial);
    }

    /** Puts the stats of the nodes `cs`, as many as fit in `count` bytes. */
    method PutStats(m: Msg, cs: seq<nat>, count: nat) returns (used: nat)
      requires forall c :: c in cs ==> c in nodes
      requires m.Valid() && m.pos >= HEADER && !m.bad && m.pos + count <= |m.buf|
      modifies m
      ensures m.Valid() && |m.buf| == old(|m.buf|) && !m.bad && m.pos == old(m.pos) + used
      ensures m.Head() == old(m.Head()) && m.Body() == old(m.Body()) + Listing(nodes, cs, count)
      ensures used == |Listing(nodes, cs, count)|
    {
      hide Stat;
      used := 0;
      var i := 0;
      while i < |cs| && used + |Stat(nodes[cs[i]])| <= count
        invariant 0 <= i <= |cs| && used <= count
        invariant m.Valid() && |m.buf| == old(|m.buf|) && !m.bad && m.pos == old(m.pos) + used
        invariant m.Head() == old(m.Head()) && |m.Body()| == old(|m.Body()|) + used
        invariant m.Body() + Listing(nodes, cs[i..], count - used) == old(m.Body()) + Listing(nodes, cs, count)
        decreases |cs| - i
      {
        assert cs[i..][1..] == cs[i + 1..] && cs[i..][0] == cs[i];
        ghost var before := m.Body();
        PutStat(m, nodes[cs[i]]);
        used := used + |Stat(nodes[cs[i]])|;
        i := i + 1;
        assert before + (Stat(nodes[cs[i - 1]]) + Listing(nodes, cs[i..], count - used))
            == m.Body() + Listing(nodes, cs[i..], count - used);
      }
      assert Listing(nodes, cs[i..], count - used) == [];
    }

    /** Sends data for the read being served. */
    method SendData(data: seq<Byte>, tag: nat, ghost serial: nat)
      requires BookValid() && Serving(serial, tag) && |data| + HEADER + 4 <= msize
      modifies this`log, this`answered, this`current
      ensures BookValid() && current == multiset{}
      ensures log == old(log) + [ReadFrame(tag, data)]
      ensures Grew()
    {
      hide BookOk, Frame;
      var m := StartReply(TREAD + 1, tag);
      m.Put(0, 4);
      m.PutBytes(data);
      m.PatchBody(|data|);
      assert m.Body() == Bytes(|data|, 4) + data;
      Answer(m, TREAD + 1, tag, serial);
    }

    /** A file read: the program answers it, or fails it, or will answer later. */
    method ReadFile(k: nat, offset: nat, count: nat, tag: nat, serial: nat, oom: bool) returns (rc: int)
      requires Valid() && Serving(serial, tag) && k < |fids| && count + HEADER + 4 <= msize
      modifies this`nodes, this`nextNode, this`deferred, this`log, this`answered, this`freed, this`calls, this`current
      ensures Valid()
      ensures rc != 0 ==> rc < 0 && Serving(serial, tag) && log == old(log)
      ensures rc == 0 ==> current == multiset{}
      ensures !ops.read ==> && rc == 0 && log == old(log) + [ReadFrame(tag, [])]
                            && nodes == old(nodes) && deferred == old(deferred)
      ensures ops.read && oom ==> rc == -ENOMEM && nodes == old(nodes) && deferred == old(deferred)
      ensures ops.read && !oom ==>
                match program(old(calls)).read
                case Data(d) => rc == 0 && log == old(log) + [ReadFrame(tag, d[..Min(|d|, count)])]
                                && deferred == old(deferred)
                case Deferred => rc == 0 && log == old(log)
                                 && deferred == [Req(serial, tag, fids[k].ptr, offset, count)] + old(deferred)
                case ReadError(err) => rc == -(err as int) && deferred == old(deferred)
      ensures Grew()
    {
      hide BookOk, FidsOk, NodesOk, DeferredOk, Frame;
      rc := 0;
      if !ops.read {
        SendData([], tag, serial);
        return;
      }
      if oom {
        return -ENOMEM;
      }
      var b := Callback(true);
      match b.read
      case Data(d) =>
        SendData(d[..Min(|d|, count)], tag, serial);
      case Deferred =>
        Defer(Req(serial, tag, fids[k].ptr, offset, count), k);
      case ReadError(err) =>
        rc := -(err as int);
    }

    /** Keeps the read being served, to be answered later. */
    method Defer(req: Req, k: nat)
      requires Valid() && k < |fids| && req.fid == fids[k].ptr && req.count + HEADER + 4 <= msize
      requires Serving(req.serial, req.tag)
      modifies this`deferred, this`current
      ensures Valid() && current == multiset{} && deferred == [req] + old(deferred)
    {
      BookDefer(requests, log, answered, deferred, req);
      hide BookOk, FidsOk, NodesOk;
      assert Live(fids, req.fid);
      deferred := [req] + deferred;
      current := multiset{};
    }

    /** How a read of a node is answered: a directory's records, the program's data, or later. */
    ghost predicate ReadAnswer(nodes: Nodes, n: nat, call: nat, oom: bool, d0: seq<Req>, d1: seq<Req>,
                               log0: seq<seq<Byte>>, log1: seq<seq<Byte>>, req: Req, rc: int)
      requires n in nodes && forall c :: c in nodes[n].children ==> c in nodes
    {
      if nodes[n].kind == TYPE_DIR then
        var cs := nodes[n].children;
        && rc == 0 && d1 == d0
        && log1 == log0 + [ReadFrame(req.tag, Listing(nodes, cs[Min(req.offset, |cs|)..], req.count))]
      else if !ops.read then rc == 0 && d1 == d0 && log1 == log0 + [ReadFrame(req.tag, [])]
      else if oom then rc == -ENOMEM && d1 == d0 && log1 == log0
      else match program(call).read
           case Data(d) => rc == 0 && d1 == d0 && log1 == log0 + [ReadFrame(req.tag, d[..Min(|d|, req.count)])]
           case Deferred => rc == 0 && d1 == [req] + d0 && log1 == log0
           case ReadError(err) => rc == -(err as int) && d1 == d0 && log1 == log0
    }

    method Read(k: nat, inp: Msg, tag: nat, serial: nat, oom: bool) returns (rc: int)
      requires Valid() && Serving(serial, tag) && inp.Valid() && k < |fids| && InTree(nodes, fids[k].node)
      modifies this`nodes, this`nextNode, this`deferred, this`log, this`answered, this`freed, this`calls, this`current,
               inp`pos, inp`bad
      ensures Valid()
      ensures rc != 0 ==> rc < 0 && Serving(serial, tag) && log == old(log)
      ensures rc == 0 ==> current == multiset{}
      ensures old(inp.bad) || old(inp.pos) + 8 > |inp.buf| ==>
                rc == -EPROTO && nodes == old(nodes) && deferred == old(deferred)
      ensures !old(inp.bad) && old(inp.pos) + 8 <= |inp.buf| ==>
                && (forall c :: c in old(nodes)[fids[k].node].children ==> c in old(nodes))
                && ReadAnswer(old(nodes), fids[k].node, old(calls), oom, old(deferred), deferred, old(log), log,
                              Req(serial, tag, fids[k].ptr, U32(inp.buf, old(inp.pos)),
                                  Min(U32(inp.buf, old(inp.pos) + 4), msize - HEADER - 4)), rc)
                && (old(nodes)[fids[k].node].kind == TYPE_DIR || !ops.read || oom ==> nodes == old(nodes))
      ensures Grew()
    {
      hide BookOk, FidsOk, DeferredOk, Frame, LE, RefsOk, FreedOk, Listing;
      var offset := inp.Get(4);
      var count := inp.Get(4);
      if inp.bad {
        return -EPROTO;
      }
      if count > msize - HEADER - 4 {
        count := msize - HEADER - 4;
      }
      var n := fids[k].node;
      assert ChildrenOk(nodes, n);
      if nodes[n].kind == TYPE_DIR {
        ReadDir(n, offset, count, tag, serial);
        rc := 0;
      } else {
        rc := ReadFile(k, offset, count, tag, serial, oom);
      }
    }

    method Write(k: nat, inp: Msg, tag: nat, ghost serial: nat) returns (rc: int)
      requires Valid() && Serving(serial, tag) && inp.Valid() && k < |fids| && fids[k].node in nodes
      modifies this`nodes, this`nextNode, this`deferred, this`log, this`answered, this`freed, this`calls, this`current,
               inp`pos, inp`bad
      ensures Valid()
      ensures rc != 0 ==> rc < 0 && Serving(serial, tag)
      ensures rc == 0 ==> current == multiset{}
      ensures var p, node := old(inp.pos), old(nodes)[fids[k].node];
              if old(inp.bad) || p + 8 > |inp.buf| || p + 8 + U32(inp.buf, p + 4) != |inp.buf| then rc == -EPROTO
              else if node.removed then rc == -EIO
              else if node.kind == TYPE_DIR then rc == -EISDIR
              else if !ops.write then rc == -EROFS
              else match program(old(calls)).write
                   case WriteError(err) => rc == -(err as int)
                   case Taken(n) => rc == 0 && log != [] && log[|log| - 1] == Frame(TWRITE + 1, tag, Bytes(n, 4))
      ensures rc != 0 && calls == old(calls) ==> log == old(log) && nodes == old(nodes) && deferred == old(deferred)
      ensures var p, node := old(inp.pos), old(nodes)[fids[k].node];
              calls != old(calls) <==>
              !old(inp.bad) && p + 8 <= |inp.buf| && p + 8 + U32(inp.buf, p + 4) == |inp.buf|
              && !node.removed && node.kind != TYPE_DIR && ops.write
      ensures Grew()
    {
      hide BookOk, FidsOk, DeferredOk, Frame, LE, NodesOk;
      var offset := inp.Get(4);
      var count := inp.Get(4);
      var at := inp.Take(count);
      if inp.bad || inp.pos != |inp.buf| {
        return -EPROTO;
      }
      var n := fids[k].node;
      if nodes[n].removed {
        return -EIO;
      }
      if nodes[n].kind == TYPE_DIR {
        return -EISDIR;
      }
      if !ops.write {
        return -EROFS;
      }
      var b := Callback(false);
      match b.write
      case WriteError(err) =>
        return -(err as int);
      case Taken(count) =>
        SendTaken(count, tag, serial);
        rc := 0;
    }

    method SendTaken(count: nat, tag: nat, ghost serial: nat)
      requires BookValid() && Serving(serial, tag)
      modifies this`log, this`answered, this`current
      ensures BookValid() && current == multiset{}
      ensures log == old(log) + [Frame(TWRITE + 1, tag, Bytes(count, 4))]
      ensures Grew()
    {
      hide BookOk, Frame;
      var m := StartReply(TWRITE + 1, tag);
      m.Put(count, 4);
      assert m.Body() == Bytes(count, 4);
      Answer(m, TWRITE + 1, tag, serial);
    }

    method ClunkRequest(k: nat, tag: nat, ghost serial: nat)
      requires Valid() && Serving(serial, tag) && k < |fids|
      modifies this`nodes, this`nextNode, this`deferred, this`log, this`answered, this`freed, this`calls, this`fids,
               this`current
      ensures Valid() && current == multiset{}
      ensures fids == old(fids)[..k] + old(fids)[k + 1..]
      ensures |old(log)| < |log| && log[|log| - 1] == Frame(TCLUNK + 1, tag, [])
      ensures Grew()
    {
      hide BookOk, Frame, NodesOk, FidsOk, DeferredOk;
      Clunk(k);
      var m := StartReply(TCLUNK + 1, tag);
      Answer(m, TCLUNK + 1, tag, serial);
    }

    /** Performs the request: 0 once it has been answered or deferred, else the error to answer with. That error is
        what `Refusal` says, with nothing changed, or what the program's callback gave. */
    method Perform(inp: Msg, kind: Byte, tag: nat, serial: nat, oom: bool) returns (rc: int)
      requires Valid() && Serving(serial, tag)
      requires inp.Valid() && !inp.bad && inp.pos == HEADER && kind == inp.buf[4] && Ready(nodes, fids)
      modifies this`nodes, this`nextNode, this`deferred, this`log, this`answered, this`freed, this`calls, this`fids,
               this`nextFid, this`msize, this`current, inp`pos, inp`bad
      ensures Valid() && rc <= 0
      ensures rc == 0 ==> current == multiset{}
      ensures rc != 0 ==> Serving(serial, tag)
      ensures msize != old(msize) ==> kind == TVERSION && rc == 0 && fids == [] && deferred == []
      ensures var e := Refusal(old(nodes), old(fids), ops, inp.buf, oom);
              && (e != 0 ==> && rc == e && log == old(log)
                             && nodes == old(nodes) && fids == old(fids) && deferred == old(deferred))
              && (e == 0 ==> rc == 0 || ProgramError(kind, old(calls), rc))
              && (e == 0 && kind in {TATTACH, TWALK, TSTAT} ==>
                    log == old(log) + [Frame(kind + 1, tag,
                                             Stat(old(nodes)[Told(old(nodes), old(fids), ops, inp.buf, oom)]))])
              && (e == 0 && kind != TREAD && kind != TWRITE ==> AnsweredWith(old(log), log, kind))
      ensures Grew()
    {
      hide Valid, Ready, Frame, LE, WalkTo, OnFidRefusal, CStr, Stat, VersionAsked, AttachRefusal, HasId, NoFid,
        AnsweredWith, Str, Bytes, HasStr, StrAt, ProgramError, Serving;
      if kind == TVERSION {
        rc := Version(inp, tag, serial);
        if rc == 0 {
          FrameAnswers(old(log), log, kind, tag, Bytes(msize, 4) + Str(ZRP2));
        }
        return;
      }
      if kind == TATTACH {
        ReadyRoot(nodes, fids);
        rc := Attach(inp, tag, serial, oom);
        if rc == 0 {
          FrameAnswers(old(log), log, kind, tag, Stat(old(nodes)[ROOT]));
        }
        return;
      }
      var id := inp.Get(4);
      var k := FindFid(id);
      if inp.bad {
        return -EPROTO;
      }
      if k < 0 {
        return -EBADF;
      }
      ReadyFid(nodes, fids, k);
      rc := PerformOn(k, inp, kind, tag, serial, oom);
    }

    /** The requests on a fid. */
    method PerformOn(k: nat, inp: Msg, kind: Byte, tag: nat, serial: nat, oom: bool) returns (rc: int)
      requires Valid() && Serving(serial, tag) && k < |fids| && fids[k].node in nodes && TreeOk(nodes)
      requires inp.Valid() && !inp.bad && inp.pos == HEADER + 4 && kind == inp.buf[4]
      modifies this`nodes, this`nextNode, this`deferred, this`log, this`answered, this`freed, this`calls, this`fids,
               this`nextFid, this`current, inp`pos, inp`bad
      ensures Valid() && rc <= 0
      ensures rc == 0 ==> current == multiset{}
      ensures rc != 0 ==> Serving(serial, tag)
      ensures var e := OnFidRefusal(old(nodes), old(fids), old(fids)[k].node, ops, inp.buf, oom);
              && (e != 0 ==> && rc == e && log == old(log)
                             && nodes == old(nodes) && fids == old(fids) && deferred == old(deferred))
              && (e == 0 ==> rc == 0 || ProgramError(kind, old(calls), rc))
              && (e == 0 && kind == TWALK ==>
                    log == old(log) + [Frame(kind + 1, tag,
                             Stat(old(nodes)[WalkTo(old(nodes), old(fids)[k].node, StrAt(inp.buf, HEADER + 8))]))])
              && (kind == TSTAT ==> log == old(log) + [Frame(kind + 1, tag, Stat(old(nodes)[old(fids)[k].node]))])
              && (kind == TCLUNK ==> && fids == old(fids)[..k] + old(fids)[k + 1..]
                                     && |old(log)| < |log| && log[|log| - 1] == Frame(TCLUNK + 1, tag, []))
              && (e == 0 && kind != TREAD && kind != TWRITE ==> AnsweredWith(old(log), log, kind))
      ensures Grew()
    {
      hide BookOk, Frame, FidsOk, DeferredOk, LE, RefsOk, FreedOk, WalkTo, Listing, CStr, Stat, AnsweredWith;
      if kind == TWALK {
        rc := Walk(k, inp, tag, serial, oom);
        if rc == 0 {
          FrameAnswers(old(log), log, kind, tag,
                       Stat(old(nodes)[WalkTo(old(nodes), old(fids)[k].node, StrAt(inp.buf, HEADER + 8))]));
        }
      } else if kind == TREAD {
        if nodes[fids[k].node].removed {
          return -EIO;
        }
        rc := Read(k, inp, tag, serial, oom);
      } else if kind == TWRITE {
        rc := Write(k, inp, tag, serial);
      } else if kind == TCLUNK {
        ClunkRequest(k, tag, serial);
        FrameAnswers(old(log), log, kind, tag, []);
        rc := 0;
      } else if kind == TSTAT {
        rc := SendStat(TSTAT + 1, fids[k].node, tag, serial);
        FrameAnswers(old(log), log, kind, tag, Stat(nodes[fids[k].node]));
      } else {
        rc := -EPROTO;
      }
    }

    /** The error the program's callback gave. */
    ghost predicate ProgramError(kind: Byte, call: nat, rc: int)
    {
      || (kind == TREAD && program(call).read.ReadError? && rc == -(program(call).read.err as int))
      || (kind == TWRITE && program(call).write.WriteError? && rc == -(program(call).write.err as int))
    }

    static lemma ReadyRoot(nodes: Nodes, fids: seq<Fid>)
      requires Ready(nodes, fids)
      ensures ROOT in nodes
    {
    }

    static lemma ReadyFid(nodes: Nodes, fids: seq<Fid>, k: nat)
      requires Ready(nodes, fids) && k < |fids|
      ensures TreeOk(nodes) && fids[k].node in nodes
    {
    }

    lemma IsReady()
      requires Valid()
      ensures Ready(nodes, fids)
    {
      hide BookOk, FidsOk, DeferredOk, FreedOk;
    }

    /** One message from the pipe: -1 when the client has gone (nothing was read). A message that is not one is not
        answered; a request that is refused changes nothing and is answered with the error. (A valid server is
        ready: IsReady.) */
    method Handle(bytes: seq<Byte>, oom: bool) returns (r: int)
      requires Valid() && current == multiset{} && Ready(nodes, fids)
      modifies this
      ensures Valid() && current == multiset{}
      ensures r == if bytes == [] then -1 else 0
      ensures requests == old(requests) + if WellFramed(bytes) then [TagOf(bytes)] else []
      ensures !WellFramed(bytes) ==>
                log == old(log) && fids == old(fids) && nodes == old(nodes) && deferred == old(deferred)
      ensures WellFramed(bytes) ==>
                var e := Refusal(old(nodes), old(fids), ops, bytes, oom);
                && (e != 0 ==> && log == old(log) + [ErrorFrame(TagOf(bytes), -e)]
                               && nodes == old(nodes) && fids == old(fids) && deferred == old(deferred))
                && (e == 0 && bytes[4] in {TATTACH, TWALK, TSTAT} ==>
                      log == old(log) + [Frame(bytes[4] + 1, TagOf(bytes),
                                               Stat(old(nodes)[Told(old(nodes), old(fids), ops, bytes, oom)]))])
                && (e == 0 && bytes[4] != TREAD && bytes[4] != TWRITE ==> AnsweredWith(old(log), log, bytes[4]))
      ensures Grew()
    {
      hide Frame, LE, Refusal, Told, Ready, Valid, Stat, AnsweredWith;
      if bytes == [] {
        return -1;
      }
      r := 0;
      var inp := new Msg(bytes);
      var size := inp.Get(4);
      var kind := inp.Get(1);
      var tag := inp.Get(2);
      if inp.bad || size != |bytes| {
        return;
      }
      HeaderRanges(bytes);
      Serve(inp, kind, tag, oom);
    }

    /** Performs a request and answers it if that fails. */
    method Serve(inp: Msg, kind: Byte, tag: nat, oom: bool)
      requires Valid() && current == multiset{} && Ready(nodes, fids) && tag < 0x10000
      requires inp.Valid() && !inp.bad && inp.pos == HEADER && kind == inp.buf[4]
      modifies this, inp`pos, inp`bad
      ensures Valid() && current == multiset{} && requests == old(requests) + [tag]
      ensures var e := Refusal(old(nodes), old(fids), ops, inp.buf, oom);
              && (e != 0 ==> && log == old(log) + [ErrorFrame(tag, -e)]
                             && nodes == old(nodes) && fids == old(fids) && deferred == old(deferred))
              && (e == 0 && kind in {TATTACH, TWALK, TSTAT} ==>
                    log == old(log) + [Frame(kind + 1, tag,
                                             Stat(old(nodes)[Told(old(nodes), old(fids), ops, inp.buf, oom)]))])
              && (e == 0 && kind != TREAD && kind != TWRITE ==> AnsweredWith(old(log), log, kind))
      ensures Grew()
    {
      hide Frame, LE, Refusal, Told, Ready, Valid, Stat, ErrorFrame, AnsweredWith;
      Arrive(tag);
      var rc := Perform(inp, kind, tag, |requests| - 1, oom);
      if rc < 0 {
        FailCurrent(tag, -rc, |requests| - 1);
      }
    }

    /** A request has come. */
    method Arrive(tag: nat)
      requires Valid() && current == multiset{} && tag < 0x10000
      modifies this`requests, this`current
      ensures Valid() && requests == old(requests) + [tag] && Serving(|requests| - 1, tag)
    {
      BookArrive(requests, log, answered, deferred, tag);
      hide NodesOk, FidsOk, DeferredOk, BookOk;
      requests := requests + [tag];
      current := multiset{|requests| - 1};
    }

    static lemma HeaderRanges(b: seq<Byte>)
      requires |b| >= HEADER
      ensures LE(b[4..5]) == b[4] && LE(b[5..7]) < 0x10000
    {
      assert LE(b[4..5]) == b[4] + 256 * LE(b[4..5][1..]);
      assert LE(b[5..7]) == b[5] + 256 * LE(b[5..7][1..]);
      assert LE(b[5..7][1..]) == b[6] + 256 * LE(b[5..7][1..][1..]);
    }

    method FailCurrent(tag: nat, err: nat, ghost serial: nat)
      requires Valid() && Serving(serial, tag)
      modifies this`log, this`answered, this`current
      ensures Valid() && current == multiset{}
      ensures log == old(log) + [ErrorFrame(tag, err)]
      ensures Grew()
    {
      FrameReadsBack(RERROR, tag, Bytes(err, 2));
      BookAnswerCurrent(requests, log, answered, deferred, serial, ErrorFrame(tag, err));
      hide BookOk, Frame, FidsOk, DeferredOk, NodesOk;
      SendError(tag, err, serial);
      current := multiset{};
    }

    // ----- the end -----

    /** Frees everything below a node, depth first; `gone` is what was freed. */
    method FreeTree(dir: nat) returns (ghost gone: set<nat>)
      requires dir in nodes && Forest(nodes) && FreedOk(nodes, freed, nextNode)
      modifies this`nodes, this`freed
      ensures Freeing(old(nodes), nodes, dir, |old(nodes)[dir].children|, gone)
      ensures Forest(nodes) && FreedOk(nodes, freed, nextNode)
      decreases nextNode - dir
    {
      hide Forest, Freeing, FreedOk, GoneSet, Without;
      ghost var a := nodes;
      ghost var k := 0;
      gone := {};
      FreeingStart(a, dir);
      while nodes[dir].children != []
        invariant dir in nodes && k <= |a[dir].children| && nodes[dir].children == a[dir].children[k..]
        invariant Forest(nodes) && FreedOk(nodes, freed, nextNode) && Freeing(a, nodes, dir, k, gone)
        decreases |a[dir].children| - k
      {
        var n := nodes[dir].children[0];
        ghost var b := nodes;
        FirstChild(dir);
        ForestUnlinkFirst(nodes, dir);
        FreedRetouch(nodes, freed, nextNode, dir, nodes[dir].(children := nodes[dir].children[1..]));
        nodes := nodes[dir := nodes[dir].(children := nodes[dir].children[1..])];
        ghost var b1 := nodes;
        assert b1[n] == b[n];
        ghost var below := FreeTree(n);
        FreeingStep(a, b, b1, nodes, dir, k, gone, below);
        FreedOne(nodes, freed, nextNode, n, b1, below);
        nodes, freed := nodes - {n}, freed + [n];
        gone, k := gone + below + {n}, k + 1;
        ForestAfter(a, nodes, dir, k, gone);
        FreeingDir(a, nodes, dir, k, gone);
      }
    }

    lemma FirstChild(dir: nat)
      requires dir in nodes && Forest(nodes) && FreedOk(nodes, freed, nextNode) && nodes[dir].children != []
      ensures var n := nodes[dir].children[0]; n in nodes && dir < n < nextNode
    {
      assert ChildrenOk(nodes, dir) && nodes[dir].children[0] in nodes[dir].children;
    }

    static lemma FreedRetouch(nodes: Nodes, freed: seq<nat>, next: nat, n: nat, node: Node)
      requires FreedOk(nodes, freed, next) && n in nodes
      ensures FreedOk(nodes[n := node], freed, next)
    {
    }

    static lemma FreedOne(nodes: Nodes, freed: seq<nat>, next: nat, n: nat, b1: Nodes, below: set<nat>)
      requires FreedOk(nodes, freed, next) && n in b1 && Freeing(b1, nodes, n, |b1[n].children|, below) && 0 < n
      ensures n in nodes && FreedOk(nodes - {n}, freed + [n], next)
    {
      hide GoneSet;
    }

    static lemma FreeingDir(a: Nodes, b: Nodes, dir: nat, k: nat, gone: set<nat>)
      requires dir in a && k <= |a[dir].children| && Freeing(a, b, dir, k, gone)
      ensures dir in b && b[dir].children == a[dir].children[k..]
    {
      hide GoneSet;
    }

    static lemma FreeingKeys(a: Nodes, b: Nodes, dir: nat, k: nat, gone: set<nat>, n: nat)
      requires dir in a && k <= |a[dir].children| && Freeing(a, b, dir, k, gone) && n in b
      ensures n in a && n !in gone
    {
      hide GoneSet;
    }

    /** Clunks what is left and frees the tree. */
    method Free()
      requires Valid() && current == multiset{}
      modifies this`nodes, this`nextNode, this`deferred, this`log, this`answered, this`freed, this`calls, this`fids
      ensures BookValid() && fids == [] && deferred == []
      ensures Distinct(freed) && forall n :: n in freed <==> 1 <= n < nextNode
      ensures Grew()
    {
      hide BookOk, FidsOk, DeferredOk, NodesOk, Forest, Freeing, ParentOk, ChildrenOk;
      ClunkAll();
      ghost var a, was := nodes, freed;
      NodesHaveTree(nodes, fids, -1, freed, nextNode);
      ghost var gone := FreeTree(ROOT);
      FreeingDir(a, nodes, ROOT, |a[ROOT].children|, gone);
      forall n ensures n in freed <==> 1 <= n < nextNode {
        assert 0 <= n < nextNode && n !in freed ==> n in nodes;
        if n in nodes && n != ROOT {
          FreeingKeys(a, nodes, ROOT, |a[ROOT].children|, gone, n);
          AllFreed(a, nodes, fids, was, nextNode, gone, n);
        }
      }
    }
  }

  // ----- what is on the wire -----

  lemma NumberAt(pre: seq<Byte>, x: nat, post: seq<Byte>)
    requires x < 0x1_0000_0000
    ensures var b := pre + Bytes(x, 4) + post; |b| >= |pre| + 4 && U32(b, |pre|) == x
  {
    var b := pre + Bytes(x, 4) + post;
    assert b[|pre|..|pre| + 4] == Bytes(x, 4);
    BytesRoundTrip(x, 4);
    hide LE, Bytes;
    assert Pow256(4) == 0x1_0000_0000 by { FourPowers(); }
  }

  lemma FourPowers()
    ensures Pow256(2) == 0x10000 && Pow256(4) == 0x1_0000_0000
  {
    LEUnits();
    Pow256Next(1);
    Pow256Next(2);
    Pow256Next(3);
    Pow256Next(4);
  }

  lemma {:induction false} WholeCStr(s: seq<Byte>)
    requires 0 !in s
    ensures CStr(s) == s
  {
    if s != [] {
      assert s[0] in s;
      WholeCStr(s[1..]);
    }
  }

  lemma NameAt(pre: seq<Byte>, name: seq<Byte>, post: seq<Byte>)
    requires |name| <= NAME_MAX && 0 !in name
    ensures var b := pre + Str(name) + post; HasStr(b, |pre|) && StrAt(b, |pre|) == name
  {
    var b := pre + Str(name) + post;
    hide LE, Bytes, CStr;
    assert b[|pre|..|pre| + 2] == Bytes(|name|, 2);
    BytesRoundTrip(|name|, 2);
    FourPowers();
    assert b[|pre| + 2..|pre| + 2 + |name|] == name;
    WholeCStr(name);
  }

  /** Type, tag and up to three numbers, as docs/zrp.md lays requests out. */
  function Asked(kind: Byte, tag: nat, numbers: seq<nat>, rest: seq<Byte>): seq<Byte>
  {
    Frame(kind, tag, Numbers(numbers) + rest)
  }

  function Numbers(ns: seq<nat>): (s: seq<Byte>)
    ensures |s| == 4 * |ns|
  {
    if ns == [] then [] else Bytes(ns[0], 4) + Numbers(ns[1..])
  }

  lemma AskedReads(kind: Byte, tag: nat, ns: seq<nat>, rest: seq<Byte>)
    requires tag < 0x10000 && 1 <= |ns| <= 3 && HEADER + 12 + |rest| < 0x1_0000_0000
    requires forall i :: 0 <= i < |ns| ==> ns[i] < 0x1_0000_0000
    ensures var b := Asked(kind, tag, ns, rest);
            && WellFramed(b) && b[4] == kind && TagOf(b) == tag && |b| == HEADER + 4 * |ns| + |rest|
            && U32(b, HEADER) == ns[0] && (|ns| > 1 ==> U32(b, HEADER + 4) == ns[1])
            && (|ns| > 2 ==> U32(b, HEADER + 8) == ns[2])
  {
    hide U32, WellFramed, TagOf, Bytes;
    var b, body := Asked(kind, tag, ns, rest), Numbers(ns) + rest;
    FrameReadsBack(kind, tag, body);
    var h := b[..HEADER];
    assert b == h + body;
    assert Numbers(ns) == Bytes(ns[0], 4) + Numbers(ns[1..]);
    NumberAt(h, ns[0], Numbers(ns[1..]) + rest);
    assert b == h + Bytes(ns[0], 4) + (Numbers(ns[1..]) + rest);
    if |ns| > 1 {
      var h1 := h + Bytes(ns[0], 4);
      assert Numbers(ns[1..]) == Bytes(ns[1], 4) + Numbers(ns[1..][1..]);
      NumberAt(h1, ns[1], Numbers(ns[1..][1..]) + rest);
      assert b == h1 + Bytes(ns[1], 4) + (Numbers(ns[1..][1..]) + rest);
      if |ns| > 2 {
        var h2 := h1 + Bytes(ns[1], 4);
        assert ns[1..][1..][0] == ns[2];
        assert Numbers(ns[1..][1..]) == Bytes(ns[2], 4) + Numbers(ns[1..][1..][1..]);
        NumberAt(h2, ns[2], Numbers(ns[1..][1..][1..]) + rest);
        assert b == h2 + Bytes(ns[2], 4) + (Numbers(ns[1..][1..][1..]) + rest);
      }
    }
  }

  lemma AskedName(kind: Byte, tag: nat, ns: seq<nat>, name: seq<Byte>)
    requires |name| <= NAME_MAX && 0 !in name
    ensures var b := Asked(kind, tag, ns, Str(name));
            HasStr(b, HEADER + 4 * |ns|) && StrAt(b, HEADER + 4 * |ns|) == name
  {
    hide Str, HasStr, StrAt, Bytes, Numbers;
    var b := Asked(kind, tag, ns, Str(name));
    var pre := Bytes(HEADER + |Numbers(ns) + Str(name)|, 4) + [kind] + Bytes(tag, 2) + Numbers(ns);
    assert b == pre + Str(name) + [];
    NameAt(pre, name, []);
  }

  /** The requests of docs/zrp.md, each made as it says: none is badly formed, whatever the server's state. */
  lemma WellMade(nodes: Nodes, fids: seq<Fid>, tag: nat, x: nat, y: nat, z: nat, name: seq<Byte>, data: seq<Byte>)
    requires forall i :: 0 <= i < |fids| ==> fids[i].node in nodes
    requires tag < 0x10000 && x < 0x1_0000_0000 && y < 0x1_0000_0000 && z < 0x1_0000_0000
    requires |name| <= NAME_MAX && 0 !in name && |data| < 0x1_0000
    ensures x >= 256 ==> !BadlyFormed(nodes, fids, Asked(1, tag, [x], Str([0x5A, 0x52, 0x50, 0x32])))
    ensures !BadlyFormed(nodes, fids, Asked(3, tag, [x], Str(name)))
    ensures !BadlyFormed(nodes, fids, Asked(5, tag, [x, y], Str(name)))
    ensures !BadlyFormed(nodes, fids, Asked(7, tag, [x, y, z], []))
    ensures !BadlyFormed(nodes, fids, Asked(9, tag, [x, y, |data|], data))
    ensures !BadlyFormed(nodes, fids, Asked(11, tag, [x], [])) && !BadlyFormed(nodes, fids, Asked(13, tag, [x], []))
  {
    hide Asked, Str, HasStr, StrAt, U32, WellFramed, TagOf, FidNode, HasId;
    StrLength(ZRP2);
    StrLength(name);
    AskedReads(1, tag, [x], Str(ZRP2));
    AskedName(1, tag, [x], ZRP2);
    AskedReads(3, tag, [x], Str(name));
    AskedName(3, tag, [x], name);
    AskedReads(5, tag, [x, y], Str(name));
    AskedName(5, tag, [x, y], name);
    AskedReads(7, tag, [x, y, z], []);
    AskedReads(9, tag, [x, y, |data|], data);
    AskedReads(11, tag, [x], []);
    AskedReads(13, tag, [x], []);
  }

  lemma StrLength(s: seq<Byte>)
    ensures |Str(s)| == 2 + |s|
  {
  }

  /** A stat record reads back: type, length and name. */
  lemma StatReads(n: Node, post: seq<Byte>)
    requires |n.name| <= NAME_MAX && 0 !in n.name && n.length < 0x1_0000_0000
    ensures var b := Stat(n) + post;
            && |Stat(n)| == 7 + |n.name| && b[0] == n.kind && U32(b, 1) == n.length
            && HasStr(b, 5) && StrAt(b, 5) == n.name
  {
    hide Str, HasStr, StrAt, U32;
    var b := Stat(n) + post;
    assert Bytes(n.kind, 1) == [n.kind] by { OneByte(n.kind); }
    hide Bytes;
    StrLength(n.name);
    NumberAt([n.kind], n.length, Str(n.name) + post);
    assert b == [n.kind] + Bytes(n.length, 4) + (Str(n.name) + post);
    NameAt([n.kind] + Bytes(n.length, 4), n.name, post);
    assert b == [n.kind] + Bytes(n.length, 4) + Str(n.name) + post;
  }

  lemma OneByte(k: Byte)
    ensures Bytes(k, 1) == [k]
  {
    assert Bytes(k / 256, 0) == [];
  }

  // ----- a request with no session -----

  function RootNode(): Node
  {
    Node([SLASH], TYPE_DIR, 0, ROOT, [], 1, false)
  }

  /** Too short for what every request of its type has. */
  predicate Malformed(b: seq<Byte>)
  {
    |b| < HEADER + 4 || (|b| >= HEADER && b[4] == TATTACH && !HasStr(b, HEADER + 4))
  }

  /** With no fid there is nothing to act on but the root: only an attach can succeed. */
  lemma NoFids(nodes: Nodes, ops: Ops, b: seq<Byte>, oom: bool)
    requires Ready(nodes, []) && |b| >= HEADER && b[4] != TVERSION
    ensures Refusal(nodes, [], ops, b, oom) ==
            if Malformed(b) then -EPROTO
            else if b[4] != TATTACH then -EBADF
            else if StrAt(b, HEADER + 4) != [] then -ENOENT
            else if oom then -ENOMEM else 0
  {
    hide HasStr, StrAt;
  }

  /** A request too short, or otherwise not made as its type is, in the state the server is in. */
  predicate BadlyFormed(nodes: Nodes, fids: seq<Fid>, b: seq<Byte>)
    requires forall i :: 0 <= i < |fids| ==> fids[i].node in nodes
    requires |b| >= HEADER
  {
    if b[4] == TVERSION then !VersionAsked(b)
    else
      || Malformed(b)
      || (b[4] != TATTACH && HasId(fids, U32(b, HEADER)) && BadOnFid(nodes[FidNode(fids, b)], b))
  }

  predicate BadOnFid(n: Node, b: seq<Byte>)
    requires |b| >= HEADER
  {
    if b[4] == TWALK then |b| < HEADER + 8 || !HasStr(b, HEADER + 8)
    else if b[4] == TREAD then !n.removed && |b| < HEADER + 12
    else if b[4] == TWRITE then |b| < HEADER + 12 || HEADER + 12 + U32(b, HEADER + 8) != |b|
    else b[4] != TCLUNK && b[4] != TSTAT
  }

  /** EPROTO is for exactly those, whether a Tversion has come or not. */
  lemma EprotoWhen(nodes: Nodes, fids: seq<Fid>, ops: Ops, b: seq<Byte>, oom: bool)
    requires Ready(nodes, fids) && |b| >= HEADER
    ensures Refusal(nodes, fids, ops, b, oom) == -EPROTO <==> BadlyFormed(nodes, fids, b)
  {
    hide HasStr, StrAt, VersionAsked, TreeOk, Lookup, ValidName;
  }

  /** The other errors, by their numbers, of a request that is made as its type is: 9 for a fid there is not; 5 for a
      node that is gone; 21 and 30 for a write to a directory and to what can't be written; 2 for a name there is not,
      20 for one looked for in a file, and 22 for one that can't be, or a new fid that is in use already. */
  lemma ErrorsWhen(nodes: Nodes, fids: seq<Fid>, ops: Ops, b: seq<Byte>, oom: bool)
    requires Ready(nodes, fids) && |b| >= HEADER && !BadlyFormed(nodes, fids, b)
    ensures |b| >= HEADER + 4
    ensures var e, known := Refusal(nodes, fids, ops, b, oom), HasId(fids, U32(b, HEADER));
            && (e == -9 <==> b[4] != 1 && b[4] != 3 && !known)
            && (b[4] == 3 ==>
                  && (e == -2 <==> StrAt(b, HEADER + 4) != [])
                  && (e == -22 <==> StrAt(b, HEADER + 4) == [] && known))
            && (known && b[4] != 1 && b[4] != 3 ==>
                  var d := nodes[FidNode(fids, b)];
                  && (e == -5 <==> (b[4] == 7 || b[4] == 9) && d.removed)
                  && (e == -21 <==> b[4] == 9 && !d.removed && d.kind == TYPE_DIR)
                  && (e == -30 <==> b[4] == 9 && !d.removed && d.kind != TYPE_DIR && !ops.write)
                  && (b[4] == 5 ==> WalkErrors(nodes, fids, FidNode(fids, b), b, e, oom)))
  {
    hide HasStr, StrAt, WalkTo, TreeOk, Lookup, NoneNamed, OddName;
    if b[4] == TWALK && HasId(fids, U32(b, HEADER)) {
      WalkErrorsAre(nodes, fids, FidNode(fids, b), b, oom);
    } else if b[4] != TVERSION && b[4] != TATTACH && HasId(fids, U32(b, HEADER)) {
      assert OnFidRefusal(nodes, fids, FidNode(fids, b), ops, b, oom) == Refusal(nodes, fids, ops, b, oom);
    }
  }

  /** Errors can be told apart by whoever receives them, and from a reply that is none. */
  lemma ErrorsDiffer(tag: nat, e: nat, f: nat, kind: Byte, body: seq<Byte>)
    requires tag < 0x10000 && e < 0x10000 && f < 0x10000 && kind != RERROR && HEADER + |body| < 0x1_0000_0000
    ensures ErrorFrame(tag, e) == ErrorFrame(tag, f) <==> e == f
    ensures ErrorFrame(tag, e) != Frame(kind, tag, body)
  {
    hide Frame, Bytes;
    FrameReadsBack(RERROR, tag, Bytes(e, 2));
    FrameReadsBack(RERROR, tag, Bytes(f, 2));
    FrameReadsBack(kind, tag, body);
    BytesRoundTrip(e, 2);
    BytesRoundTrip(f, 2);
    assert Pow256(2) == 0x10000;
  }

  /** What a server answers to its first request, when it is no Tversion. */
  function FirstReply(b: seq<Byte>, oom: bool): seq<Byte>
    requires |b| >= HEADER
  {
    if Malformed(b) then ErrorFrame(TagOf(b), EPROTO)
    else if b[4] != TATTACH then ErrorFrame(TagOf(b), EBADF)
    else if StrAt(b, HEADER + 4) != [] then ErrorFrame(TagOf(b), ENOENT)
    else if oom then ErrorFrame(TagOf(b), ENOMEM)
    else Frame(TATTACH + 1, TagOf(b), Stat(RootNode()))
  }

  /** That is EPROTO exactly when the request is malformed. */
  lemma EprotoExactly(b: seq<Byte>, oom: bool)
    requires |b| >= HEADER
    ensures FirstReply(b, oom) == ErrorFrame(TagOf(b), EPROTO) <==> Malformed(b)
  {
    Server.HeaderRanges(b);
    RootStat();
    hide ErrorFrame, Frame, StrAt, Malformed, Stat, LE;
    ErrorsDiffer(TagOf(b), EPROTO, EBADF, TATTACH + 1, Stat(RootNode()));
    ErrorsDiffer(TagOf(b), EPROTO, ENOENT, TATTACH + 1, Stat(RootNode()));
    ErrorsDiffer(TagOf(b), EPROTO, ENOMEM, TATTACH + 1, Stat(RootNode()));
  }

  method FirstRequest(ops: Ops, program: nat -> Behaviour, bytes: seq<Byte>, oom: bool)
    returns (replies: seq<seq<Byte>>)
    requires WellFramed(bytes) && bytes[4] != TVERSION
    ensures replies == [FirstReply(bytes, oom)]
    ensures replies == [ErrorFrame(TagOf(bytes), EPROTO)] <==> Malformed(bytes)
  {
    hide Ready, Refusal, Frame, ErrorFrame, StrAt, HasStr, Malformed, LE, Stat, Told, Server.Valid, RootNode;
    var s := new Server(ops, program);
    s.IsReady();
    NoFids(s.nodes, ops, bytes, oom);
    ToldRoot(s.nodes, ops, bytes, oom);
    EprotoExactly(bytes, oom);
    var _ := s.Handle(bytes, oom);
    replies := s.log;
  }

  lemma ToldRoot(nodes: Nodes, ops: Ops, b: seq<Byte>, oom: bool)
    requires Ready(nodes, []) && |b| >= HEADER
    ensures b[4] == TATTACH && Refusal(nodes, [], ops, b, oom) == 0 ==> Told(nodes, [], ops, b, oom) == ROOT
  {
  }

  lemma RootStat()
    ensures |Stat(RootNode())| < 0x1000
  {
  }

  /** So a Tattach that comes first is served, with fid 0 and tag 1 for instance: byte for byte. */
  method AttachFirst(ops: Ops, program: nat -> Behaviour) returns (replies: seq<seq<Byte>>)
    ensures replies == [[15, 0, 0, 0, 4, 1, 0, 0, 0, 0, 0, 0, 1, 0, 0x2F]]
  {
    hide Frame, Stat, RootNode;
    AttachBytes();
    var bytes: seq<Byte> := [13, 0, 0, 0, TATTACH, 1, 0, 0, 0, 0, 0, 0, 0];
    assert bytes[..4] == [13, 0, 0, 0] && bytes[5..7] == [1, 0] && bytes[11..13] == [0, 0];
    SmallNumbers();
    hide LE;
    replies := FirstRequest(ops, program, bytes, false);
  }

  lemma AttachBytes()
    ensures Frame(4, 1, Stat(RootNode())) == [15, 0, 0, 0, 4, 1, 0, 0, 0, 0, 0, 0, 1, 0, 0x2F]
  {
    FourBytesOf(0);
    FourBytesOf(15);
    OneByte(0);
    assert Bytes(1, 2) == [1] + Bytes(0, 1);
    assert Str([0x2F]) == [1, 0, 0x2F];
    assert Stat(RootNode()) == [0, 0, 0, 0, 0, 1, 0, 0x2F];
  }

  lemma FourBytesOf(n: Byte)
    ensures Bytes(n, 4) == [n, 0, 0, 0]
  {
    OneByte(0);
    assert Bytes(0, 2) == [0] + Bytes(0, 1);
    assert Bytes(0, 3) == [0] + Bytes(0, 2);
  }

  lemma SmallNumbers()
    ensures LE([13, 0, 0, 0]) == 13 && LE([1, 0]) == 1 && LE([0, 0]) == 0
  {
  }

  // ----- whole runs -----

  /** What can happen: a message comes in, or the program does something of its own accord. */
  datatype Event = Incoming(bytes: seq<Byte>, oom: bool) | Program(op: Op)

  /** The server reads at most MSIZE bytes of a message. */
  function Received(bytes: seq<Byte>): seq<Byte>
  {
    bytes[..Min(|bytes|, MSIZE)]
  }

  /** The tags of the well-framed requests among the events, in order. */
  function TagsIn(events: seq<Event>): seq<nat>
  {
    if events == [] then [] else
      var e := events[|events| - 1];
      TagsIn(events[..|events| - 1])
      + if e.Incoming? && WellFramed(Received(e.bytes)) then [TagOf(Received(e.bytes))] else []
  }

  /** reply[j] answers request answers[j]: with its tag, every request once and nothing else. */
  ghost predicate RepliesMatch(tags: seq<nat>, replies: seq<seq<Byte>>, answers: seq<nat>)
  {
    && |replies| == |answers| == |tags|
    && Distinct(answers)
    && (forall j :: 0 <= j < |replies| ==>
          answers[j] < |tags| && WellFramed(replies[j]) && TagOf(replies[j]) == tags[answers[j]])
    && (forall i :: 0 <= i < |tags| ==> i in answers)
  }

  /** sent[i] replies have been sent by the end of the first i events, and what they answer has come by then. */
  ghost predicate NoneEarly(events: seq<Event>, sent: seq<nat>, answers: seq<nat>)
  {
    && |sent| <= |events| + 1
    && forall i :: 0 <= i < |sent| ==> sent[i] <= |answers| && AllBelow(answers[..sent[i]], |TagsIn(events[..i])|)
  }

  ghost predicate AllBelow(s: seq<nat>, n: nat)
  {
    forall j :: 0 <= j < |s| ==> s[j] < n
  }

  lemma StillNotEarly(events: seq<Event>, sent: seq<nat>, a: seq<nat>, b: seq<nat>)
    requires NoneEarly(events, sent, a) && a <= b
    ensures NoneEarly(events, sent, b)
  {
    forall i | 0 <= i < |sent| ensures sent[i] <= |b| && AllBelow(b[..sent[i]], |TagsIn(events[..i])|) {
      assert b[..sent[i]] == a[..sent[i]];
    }
  }

  lemma NotEarlyNow(events: seq<Event>, sent: seq<nat>, a: seq<nat>)
    requires NoneEarly(events, sent, a) && |sent| <= |events| && AllBelow(a, |TagsIn(events[..|sent|])|)
    ensures NoneEarly(events, sent + [|a|], a)
  {
    assert a[..|a|] == a;
  }

  lemma BookBelow(requests: seq<nat>, log: seq<seq<Byte>>, answered: seq<nat>, deferred: seq<Req>)
    requires BookOk(requests, log, answered, deferred, multiset{})
    ensures |log| == |answered| && AllBelow(answered, |requests|)
  {
  }

  /** The tree and the fids when an event comes. */
  datatype View = View(nodes: Nodes, fids: seq<Fid>)

  /** The event, if it is a request, gets the error it is to be refused with, alone and at once; and if it is not
      refused, and not for the program to answer, a reply that is no error. `from` and `to` are the replies before and
      after. */
  ghost predicate RightlyRefused(e: Event, s: View, ops: Ops, replies: seq<seq<Byte>>, from: nat, to: nat)
  {
    && from <= to <= |replies|
    && (e.Incoming? && WellFramed(Received(e.bytes)) ==>
          && Ready(s.nodes, s.fids)
          && var b := Received(e.bytes);
             var r := Refusal(s.nodes, s.fids, ops, b, e.oom);
             && (r != 0 ==> to == from + 1 && replies[from] == ErrorFrame(TagOf(b), -r))
             && (r == 0 && b[4] != TREAD && b[4] != TWRITE ==> AnsweredWith(replies[..from], replies[..to], b[4])))
  }

  ghost predicate AllRefused(events: seq<Event>, views: seq<View>, ops: Ops, replies: seq<seq<Byte>>, sent: seq<nat>)
  {
    && |views| == |sent| - 1 <= |events|
    && forall i :: 0 <= i < |views| ==> RightlyRefused(events[i], views[i], ops, replies, sent[i], sent[i + 1])
  }

  lemma StillRefused(events: seq<Event>, views: seq<View>, ops: Ops, a: seq<seq<Byte>>, b: seq<seq<Byte>>,
                     sent: seq<nat>)
    requires AllRefused(events, views, ops, a, sent) && a <= b
    ensures AllRefused(events, views, ops, b, sent)
  {
    hide Refusal, Ready, WellFramed, TagOf, AnsweredWith, ErrorFrame;
    forall i | 0 <= i < |views| ensures RightlyRefused(events[i], views[i], ops, b, sent[i], sent[i + 1]) {
      assert RightlyRefused(events[i], views[i], ops, a, sent[i], sent[i + 1]);
      assert b[..sent[i]] == a[..sent[i]] && b[..sent[i + 1]] == a[..sent[i + 1]];
    }
  }

  lemma RefusedNow(events: seq<Event>, views: seq<View>, ops: Ops, log: seq<seq<Byte>>, sent: seq<nat>, s: View)
    requires AllRefused(events, views, ops, log, sent) && |views| < |events| && sent[|sent| - 1] <= |log|
    requires RightlyRefused(events[|views|], s, ops, log, sent[|sent| - 1], |log|)
    ensures AllRefused(events, views + [s], ops, log, sent + [|log|])
  {
    hide RightlyRefused;
  }

  /** One event. */
  method Happen(s: Server, e: Event) returns (ghost view: View)
    requires s.Valid() && s.current == multiset{}
    modifies s
    ensures s.Valid() && s.current == multiset{} && view == View(old(s.nodes), old(s.fids))
    ensures s.requests == old(s.requests)
                          + if e.Incoming? && WellFramed(Received(e.bytes)) then [TagOf(Received(e.bytes))] else []
    ensures old(s.log) <= s.log && old(s.answered) <= s.answered
    ensures RightlyRefused(e, view, s.ops, s.log, |old(s.log)|, |s.log|)
  {
    hide Server.Valid, Server.Did, WellFramed, TagOf, Refusal, Ready, ErrorFrame, AnsweredWith, Told;
    view := View(s.nodes, s.fids);
    ghost var was := s.log;
    match e {
      case Incoming(bytes, oom) =>
        s.IsReady();
        var _ := s.Handle(Received(bytes), oom);
      case Program(op) =>
        s.Do(op, false);
    }
    assert s.log[..|was|] == was && s.log[..|s.log|] == s.log;
  }

  /** A server, from zsrv_new to zsrv_free, under any program and any run of events: each well-framed
      request got exactly one reply, with its tag, and not before it came, and what was refused got its
      error at once; and each node made was freed exactly once. */
  method Session(ops: Ops, program: nat -> Behaviour, events: seq<Event>)
    returns (replies: seq<seq<Byte>>, freed: seq<nat>, made: nat, sent: seq<nat>, ghost answers: seq<nat>,
             ghost views: seq<View>)
    ensures RepliesMatch(TagsIn(events), replies, answers)
    ensures |sent| == |events| + 1 && NoneEarly(events, sent, answers)
    ensures AllRefused(events, views, ops, replies, sent)
    ensures Distinct(freed) && forall n :: n in freed <==> 1 <= n < made
  {
    hide BookOk, FidsOk, DeferredOk, NodesOk, WellFramed, TagOf, Refusal, NoneEarly, AllRefused, RightlyRefused;
    var s := new Server(ops, program);
    sent, views := [0], [];
    NoneEarlyAtFirst(events, s.answered);
    NoneRefusedYet(events, ops, s.log);
    for i := 0 to |events|
      invariant fresh(s) && s.ops == ops && s.Valid() && s.current == multiset{} && s.requests == TagsIn(events[..i])
      invariant |sent| == i + 1 && sent[i] == |s.log| && NoneEarly(events, sent, s.answered)
      invariant |views| == i && AllRefused(events, views, ops, s.log, sent)
    {
      assert events[..i + 1][..i] == events[..i];
      ghost var before, was := s.answered, s.log;
      var view := Happen(s, events[i]);
      StillNotEarly(events, sent, before, s.answered);
      BookBelow(s.requests, s.log, s.answered, s.deferred);
      NotEarlyNow(events, sent, s.answered);
      StillRefused(events, views, ops, was, s.log, sent);
      RefusedNow(events, views, ops, s.log, sent, view);
      sent, views := sent + [|s.log|], views + [view];
    }
    assert events[..|events|] == events;
    ghost var before, was := s.answered, s.log;
    s.Free();
    StillNotEarly(events, sent, before, s.answered);
    StillRefused(events, views, ops, was, s.log, sent);
    replies, freed, made, answers := s.log, s.freed, s.nextNode, s.answered;
    AllAnswered(s.requests, s.log, s.answered);
  }

  lemma NoneRefusedYet(events: seq<Event>, ops: Ops, log: seq<seq<Byte>>)
    ensures AllRefused(events, [], ops, log, [0])
  {
  }

  /** So in a whole run, before the first Tversion as after it, a request that is not for the program to answer gets
      EPROTO exactly when it is badly formed in the state it meets. */
  lemma EprotoInRun(events: seq<Event>, views: seq<View>, ops: Ops, replies: seq<seq<Byte>>, sent: seq<nat>, i: nat)
    requires AllRefused(events, views, ops, replies, sent) && i < |views|
    requires events[i].Incoming? && WellFramed(Received(events[i].bytes))
    requires Received(events[i].bytes)[4] !in {TREAD, TWRITE}
    ensures var b := Received(events[i].bytes);
            && Ready(views[i].nodes, views[i].fids) && sent[i] < sent[i + 1] <= |replies|
            && (replies[sent[i + 1] - 1] == ErrorFrame(TagOf(b), EPROTO) <==>
                BadlyFormed(views[i].nodes, views[i].fids, b))
  {
    var b, s := Received(events[i].bytes), views[i];
    Server.HeaderRanges(b);
    assert RightlyRefused(events[i], s, ops, replies, sent[i], sent[i + 1]);
    EprotoWhen(s.nodes, s.fids, ops, b, events[i].oom);
    var r := Refusal(s.nodes, s.fids, ops, b, events[i].oom);
    hide Refusal, BadlyFormed, Ready, Frame, LE;
    FrameKind(RERROR, TagOf(b), Bytes(EPROTO, 2));
    RefusalSmall(s.nodes, s.fids, ops, b, events[i].oom);
    ErrorsDiffer(TagOf(b), EPROTO, -r, 0, []);
  }

  lemma FrameKind(kind: Byte, tag: nat, body: seq<Byte>)
    ensures |Frame(kind, tag, body)| >= HEADER && Frame(kind, tag, body)[4] == kind
  {
  }

  lemma RefusalSmall(nodes: Nodes, fids: seq<Fid>, ops: Ops, b: seq<Byte>, oom: bool)
    requires Ready(nodes, fids) && |b| >= HEADER
    ensures -0x1_0000 < Refusal(nodes, fids, ops, b, oom) <= 0
  {
    hide HasStr, StrAt, VersionAsked, TreeOk, Lookup, ValidName;
  }

  lemma NoneEarlyAtFirst(events: seq<Event>, a: seq<nat>)
    ensures NoneEarly(events, [0], a)
  {
  }

  lemma AllAnswered(requests: seq<nat>, log: seq<seq<Byte>>, answered: seq<nat>)
    requires BookOk(requests, log, answered, [], multiset{})
    ensures RepliesMatch(requests, log, answered)
  {
    assert multiset(answered) == UpTo(|requests|);
    UpToSize(|requests|);
    assert |multiset(answered)| == |answered|;
    forall i | 0 <= i < |requests| ensures i in answered {
      UpToCounts(|requests|, i);
      assert i in multiset(answered);
    }
    forall i, j | 0 <= i < j < |answered| ensures answered[i] != answered[j] {
      if answered[i] == answered[j] {
        TwiceCounts(answered, i, j);
        UpToCounts(|requests|, answered[i]);
      }
    }
  }

  lemma {:induction false} UpToSize(n: nat)
    ensures |UpTo(n)| == n
  {
    if n > 0 {
      UpToSize(n - 1);
    }
  }

  lemma {:induction false} FailRepliesAreEio(d: seq<Req>, doomed: set<nat>)
    requires forall i :: 0 <= i < |d| ==> d[i].tag < 0x10000
    ensures forall j :: 0 <= j < |FailReplies(d, doomed)| ==> Server.IsEio(FailReplies(d, doomed)[j])
    ensures |FailReplies(d, doomed)| + |Keep(d, doomed)| == |d|
  {
    if d != [] {
      FailRepliesAreEio(d[..|d| - 1], doomed);
      FrameReadsBack(RERROR, d[|d| - 1].tag, Bytes(EIO, 2));
    }
  }
}
