/** The ioctl rendezvous of driver/dvbloopback/dvb_loopback.c: clients hand their
    ioctls, one at a time, through a single mailbox to a user-space daemon and
    wait for its answer. Two mutexes and the mailbox fields are shared; every
    step below is one thread touching them. */
module Loopback {
  import opened Octets
  import opened Wrappers

  const ULONG_MAX: nat := 0xFFFF_FFFF
  const MAX_CMDS: nat := 10
  const CUSTOMMSG_SIZE: nat := 8
  const RETDATA_SIZE: nat := 5120

  // _IOC_SIZE and IOC_IN of an ioctl number.
  function IocSize(cmd: nat): nat { cmd / 0x1_0000 % 0x4000 }

  predicate IocIn(cmd: nat) { cmd / 0x4000_0000 % 2 == 1 }

  // ioctllen: how many argument bytes the request has.
  function ArgSize(cmd: nat): nat {
    if cmd < MAX_CMDS then CUSTOMMSG_SIZE else IocSize(cmd)
  }

  // Whether the client's argument is overwritten by the answer.
  predicate AnswersData(cmd: nat) {
    cmd < MAX_CMDS || !IocIn(cmd)
  }

  // How many bytes the daemon's answer has: the return value, then the data.
  function ReplySize(cmd: nat): nat {
    4 + if AnswersData(cmd) then ArgSize(cmd) else 0
  }

  // The int at the start of the answer.
  function RetVal(retdata: Bytes): int
    requires |retdata| >= 4
  {
    var v := retdata[0] as int + 0x100 * retdata[1] as int + 0x1_0000 * retdata[2] as int
      + 0x100_0000 * retdata[3] as int;
    if v < 0x8000_0000 then v else v - 0x1_0000_0000
  }

  // ------------------------------------------------------------ the threads

  datatype Owner = Free | ByClient(c: nat) | ByDaemon

  // The fields of dvblb_devinfo that the rendezvous uses.
  datatype Mailbox = Mailbox(
    ioctlcmd: nat,
    alreadyRead: bool,
    ioctllen: nat,
    ioctlfd: nat,
    ioctldata: Bytes,
    retdata: Bytes,
    retval: int)

  // Where a client stands in dvblb_fake_ioctl.
  datatype Pc =
    | Outside        // not in a call
    | WantFake       // before locking lock_fake_ioctl
    | WantIoctl      // before locking lock_ioctl
    | SettingCmd     // both locked, before ioctlcmd = cmd
    | SettingRest    // before the other fields
    | Publishing     // before unlocking lock_ioctl
    | Waiting        // in the wait for ioctlcmd == ULONG_MAX
    | Relocking      // before locking lock_ioctl again
    | Collecting     // before the test and the copy
    | Collected      // before unlocking lock_ioctl
    | Leaving        // before unlocking lock_fake_ioctl

  datatype Client = Client(pc: Pc, cmd: nat, arg: Bytes, ret: int)

  // What the daemon reads: the request number it cannot see is in the history.
  datatype Daemon =
    | Away
    | WantRead | Reading | ReadDone
    | WantReply(cmd: nat, payload: Bytes)
    | Replying(cmd: nat, payload: Bytes)
    | Copied(cmd: nat, payload: Bytes)
    | Valued(cmd: nat, payload: Bytes)
    | ReplyDone

  datatype State = State(
    fake: Option<nat>,   // who holds lock_fake_ioctl
    lock: Owner,         // who holds lock_ioctl
    box: Mailbox,
    clients: seq<Client>,
    daemon: Daemon)

  // ------------------------------------------- the critical sections' work

  function SetCmd(b: Mailbox, cmd: nat): Mailbox {
    b.(ioctlcmd := cmd)
  }

  function SetRest(b: Mailbox, cmd: nat, fd: nat, arg: Bytes): Mailbox {
    b.(alreadyRead := false, ioctllen := ArgSize(cmd), ioctlfd := fd, ioctldata := arg)
  }

  // What dvblb_read hands to the daemon, if anything.
  datatype Message = Message(cmd: nat, fd: nat, data: Bytes)

  function Readable(b: Mailbox): Option<Message> {
    if b.ioctlcmd == ULONG_MAX || b.alreadyRead then None
    else Some(Message(b.ioctlcmd, b.ioctlfd, b.ioctldata))
  }

  // copy_from_user of n bytes, of which the last ones may be missing.
  function CopyReply(b: Mailbox, payload: Bytes, n: nat): Mailbox
    requires n <= |payload| && n <= |b.retdata|
  {
    b.(retdata := payload[..n] + b.retdata[n..])
  }

  // The client's argument and result after the answer has been copied.
  function Collect(b: Mailbox, c: Client): Client
    requires AnswersData(c.cmd) ==> 4 + b.ioctllen <= |b.retdata|
  {
    if b.ioctlcmd != ULONG_MAX then c.(ret := -1)
    else c.(ret := b.retval, arg := if AnswersData(c.cmd) then b.retdata[4..4 + b.ioctllen] else c.arg)
  }

  // --------------------------------------------------------------- the steps

  datatype Event =
    // a client's steps
    | Call(c: nat, cmd: nat, arg: Bytes)
    | LockFake(c: nat) | LockIoctl(c: nat) | DoSetCmd(c: nat) | DoSetRest(c: nat) | Publish(c: nat)
    | Wake(c: nat) | Relock(c: nat) | DoCollect(c: nat) | UnlockIoctl(c: nat) | UnlockFake(c: nat)
    // the daemon's steps
    | StartRead | LockRead | DoRead(ok: bool) | EndRead
    | StartReply(cmd: nat, payload: Bytes) | LockReply | DoCopy(n: nat) | DoValue | DoFinish | EndReply

  // What has happened, for the statements: the requests in the order of their
  // publication, those read by the daemon, the accepted answers by request
  // number, and the completed calls.
  datatype Request = Request(client: nat, cmd: nat, arg: Bytes)
  datatype Return = Return(client: nat, ret: int, arg: Bytes)
  datatype History = History(
    requests: seq<Request>,
    delivered: seq<(nat, Message)>,
    posts: map<nat, Bytes>,
    replies: seq<Return>)

  predicate At(s: State, c: nat, pc: Pc) {
    c < |s.clients| && s.clients[c].pc == pc
  }

  // When a step can be taken. No waiting client gives up; a client's argument
  // has the size its command says and the answer to it fits the buffer for it;
  // the daemon does not answer the command number that means "nothing here",
  // and its answer holds as many bytes as its command says.
  predicate Enabled(s: State, e: Event) {
    match e
    case Call(c, cmd, arg) =>
      At(s, c, Outside) && cmd <= ULONG_MAX && |arg| == ArgSize(cmd) && ReplySize(cmd) <= RETDATA_SIZE
    case LockFake(c) => At(s, c, WantFake) && s.fake == None
    case LockIoctl(c) => At(s, c, WantIoctl) && s.lock == Free
    case DoSetCmd(c) => At(s, c, SettingCmd)
    case DoSetRest(c) => At(s, c, SettingRest)
    case Publish(c) => At(s, c, Publishing)
    case Wake(c) => At(s, c, Waiting) && s.box.ioctlcmd == ULONG_MAX
    case Relock(c) => At(s, c, Relocking) && s.lock == Free
    case DoCollect(c) =>
      At(s, c, Collecting) && (AnswersData(s.clients[c].cmd) ==> 4 + s.box.ioctllen <= |s.box.retdata|)
    case UnlockIoctl(c) => At(s, c, Collected)
    case UnlockFake(c) => At(s, c, Leaving)
    case StartRead => s.daemon.Away?
    case LockRead => s.daemon.WantRead? && s.lock == Free
    case DoRead(_) => s.daemon.Reading?
    case EndRead => s.daemon.ReadDone?
    case StartReply(cmd, payload) => s.daemon.Away? && cmd != ULONG_MAX && |payload| == ReplySize(cmd)
    case LockReply => s.daemon.WantReply? && s.lock == Free
    case DoCopy(n) => s.daemon.Replying? && n <= |s.daemon.payload| && n <= |s.box.retdata|
    case DoValue => s.daemon.Copied? && 4 <= |s.box.retdata|
    case DoFinish => s.daemon.Valued?
    case EndReply => s.daemon.ReplyDone?
  }

  function Move(s: State, c: nat, pc: Pc): State
    requires c < |s.clients|
  {
    s.(clients := s.clients[c := s.clients[c].(pc := pc)])
  }

  function Next(s: State, e: Event): State
    requires Enabled(s, e)
  {
    match e
    case Call(c, cmd, arg) => s.(clients := s.clients[c := Client(WantFake, cmd, arg, 0)])
    case LockFake(c) => Move(s, c, WantIoctl).(fake := Some(c))
    case LockIoctl(c) => Move(s, c, SettingCmd).(lock := ByClient(c))
    case DoSetCmd(c) => Move(s, c, SettingRest).(box := SetCmd(s.box, s.clients[c].cmd))
    case DoSetRest(c) => Move(s, c, Publishing).(box := SetRest(s.box, s.clients[c].cmd, c, s.clients[c].arg))
    case Publish(c) => Move(s, c, Waiting).(lock := Free)
    case Wake(c) => Move(s, c, Relocking)
    case Relock(c) => Move(s, c, Collecting).(lock := ByClient(c))
    case DoCollect(c) => s.(clients := s.clients[c := Collect(s.box, s.clients[c]).(pc := Collected)])
    case UnlockIoctl(c) => Move(s, c, Leaving).(lock := Free)
    case UnlockFake(c) => Move(s, c, Outside).(fake := None)
    case StartRead => s.(daemon := WantRead)
    case LockRead => s.(daemon := Reading, lock := ByDaemon)
    case DoRead(ok) =>
      s.(daemon := ReadDone, box := if ok && Readable(s.box).Some? then s.box.(alreadyRead := true) else s.box)
    case EndRead => s.(daemon := Away, lock := Free)
    case StartReply(cmd, payload) => s.(daemon := WantReply(cmd, payload))
    case LockReply => s.(daemon := Replying(s.daemon.cmd, s.daemon.payload), lock := ByDaemon)
    case DoCopy(n) =>
      // a wrong command number, or a fault after n bytes, ends the answer
      if s.daemon.cmd != s.box.ioctlcmd then s.(daemon := ReplyDone)
      else s.(box := CopyReply(s.box, s.daemon.payload, n),
              daemon := if n == |s.daemon.payload| then Copied(s.daemon.cmd, s.daemon.payload) else ReplyDone)
    case DoValue => s.(box := s.box.(retval := RetVal(s.box.retdata)), daemon := Valued(s.daemon.cmd, s.daemon.payload))
    case DoFinish => s.(box := SetCmd(s.box, ULONG_MAX), daemon := ReplyDone)
    case EndReply => s.(daemon := Away, lock := Free)
  }

  function Record(s: State, h: History, e: Event): History
    requires Enabled(s, e)
  {
    match e
    case DoSetCmd(c) => h.(requests := h.requests + [Request(c, s.clients[c].cmd, s.clients[c].arg)])
    case DoRead(ok) =>
      if ok && Readable(s.box).Some? && h.requests != [] then
        h.(delivered := h.delivered + [(|h.requests| - 1, Readable(s.box).value)])
      else h
    case DoFinish => if h.requests != [] then h.(posts := h.posts[|h.requests| - 1 := s.daemon.payload]) else h
    case UnlockFake(c) => h.(replies := h.replies + [Return(c, s.clients[c].ret, s.clients[c].arg)])
    case _ => h
  }

  // ------------------------------------------------------------ the invariant

  predicate HoldsLock(pc: Pc) {
    pc.SettingCmd? || pc.SettingRest? || pc.Publishing? || pc.Collecting? || pc.Collected?
  }

  predicate HoldsFake(pc: Pc) {
    !pc.Outside? && !pc.WantFake?
  }

  // The request is in the mailbox, or its answer.
  predicate Published(pc: Pc) {
    HoldsFake(pc) && !pc.WantIoctl? && !pc.SettingCmd?
  }

  predicate DaemonHolds(d: Daemon) {
    !d.Away? && !d.WantRead? && !d.WantReply?
  }

  // The mutexes exclude.
  ghost predicate Locks(fake: Option<nat>, lock: Owner, clients: seq<Client>) {
    && (forall c :: 0 <= c < |clients| ==> (HoldsFake(clients[c].pc) <==> fake == Some(c)))
    && (forall c :: 0 <= c < |clients| ==> (HoldsLock(clients[c].pc) <==> lock == ByClient(c)))
    && (fake.Some? ==> fake.value < |clients|)
    && (lock.ByClient? ==> lock.c < |clients|)
  }

  // Every answer to a client in a call fits the answer buffer.
  ghost predicate Fits(clients: seq<Client>) {
    forall c :: 0 <= c < |clients| && !clients[c].pc.Outside? ==> ReplySize(clients[c].cmd) <= RETDATA_SIZE
  }

  // The client whose request is in the mailbox.
  function InBox(s: State): Option<nat> {
    if s.fake.Some? && s.fake.value < |s.clients| && Published(s.clients[s.fake.value].pc) then s.fake else None
  }

  // The answer that was posted is in the mailbox.
  ghost predicate Answered(b: Mailbox, cmd: nat, payload: Bytes) {
    && |payload| == ReplySize(cmd) <= |b.retdata|
    && b.retdata[..|payload|] == payload
    && b.retval == RetVal(payload)
  }

  // The argument after an answer.
  function AnsweredArg(r: Request, payload: Bytes): Bytes
    requires |payload| == ReplySize(r.cmd)
  {
    if AnswersData(r.cmd) then payload[4..] else r.arg
  }

  // The state of the one request that is not completed.
  ghost predicate Current(b: Mailbox, c: nat, client: Client, id: nat, h: History)
    requires id < |h.requests|
  {
    var r := h.requests[id];
    && r.client == c && r.cmd == client.cmd
    && (!client.pc.Collected? && !client.pc.Leaving? ==> r.arg == client.arg)
    && (!client.pc.SettingRest? ==> b.ioctllen == ArgSize(r.cmd) && b.ioctlfd == c && b.ioctldata == r.arg)
    && (b.ioctlcmd != ULONG_MAX ==>
          && b.ioctlcmd == r.cmd && id !in h.posts
          && (client.pc.SettingRest? || client.pc.Publishing? || client.pc.Waiting?))
    && (b.ioctlcmd == ULONG_MAX ==>
          if r.cmd == ULONG_MAX then id !in h.posts
          else id in h.posts && Answered(b, r.cmd, h.posts[id]))
    && (client.pc.Collected? || client.pc.Leaving? ==>
          (r.cmd != ULONG_MAX ==>
             && id in h.posts && |h.posts[id]| == ReplySize(r.cmd)
             && client.ret == RetVal(h.posts[id]) && client.arg == AnsweredArg(r, h.posts[id])))
    && (forall k :: 0 <= k < |h.delivered| && h.delivered[k].0 == id ==> !client.pc.SettingRest? && b.alreadyRead)
  }

  // Everything before the current request is completed.
  ghost predicate Phase(s: State, h: History) {
    match InBox(s)
    case None => |h.requests| == |h.replies| && s.box.ioctlcmd == ULONG_MAX
    case Some(c) => |h.requests| == |h.replies| + 1 && Current(s.box, c, s.clients[c], |h.replies|, h)
  }

  // What the daemon is about to post.
  ghost predicate Answering(d: Daemon, b: Mailbox) {
    match d
    case WantReply(cmd, payload) => cmd != ULONG_MAX && |payload| == ReplySize(cmd)
    case Replying(cmd, payload) => cmd != ULONG_MAX && |payload| == ReplySize(cmd)
    case Copied(cmd, payload) =>
      cmd != ULONG_MAX && b.ioctlcmd == cmd && |payload| == ReplySize(cmd) <= |b.retdata|
        && b.retdata[..|payload|] == payload
    case Valued(cmd, payload) =>
      cmd != ULONG_MAX && b.ioctlcmd == cmd && Answered(b, cmd, payload)
    case _ => true
  }

  // The history of completed requests.
  ghost predicate Log(h: History) {
    && (forall k :: 0 <= k < |h.delivered| ==>
          && h.delivered[k].0 < |h.requests| && h.delivered[k].1.cmd != ULONG_MAX
          && h.delivered[k].1 == Message(h.requests[h.delivered[k].0].cmd, h.requests[h.delivered[k].0].client,
                                         h.requests[h.delivered[k].0].arg))
    && (forall k, l :: 0 <= k < l < |h.delivered| ==> h.delivered[k].0 != h.delivered[l].0)
    && (forall id :: id in h.posts ==> id < |h.requests|)
    && |h.replies| <= |h.requests|
    && (forall id :: 0 <= id < |h.replies| ==> Completed(h, id))
  }

  // Call number id ended with what the daemon posted for it; a call with the
  // reserved command number was never answered.
  ghost predicate Completed(h: History, id: nat)
    requires id < |h.replies| <= |h.requests|
  {
    && h.replies[id].client == h.requests[id].client
    && (h.requests[id].cmd == ULONG_MAX ==> id !in h.posts)
    && (h.requests[id].cmd != ULONG_MAX ==>
          && id in h.posts && |h.posts[id]| == ReplySize(h.requests[id].cmd)
          && h.replies[id].ret == RetVal(h.posts[id])
          && h.replies[id].arg == AnsweredArg(h.requests[id], h.posts[id]))
  }

  ghost predicate Inv(s: State, h: History) {
    && Locks(s.fake, s.lock, s.clients)
    && (DaemonHolds(s.daemon) <==> s.lock == ByDaemon)
    && Fits(s.clients) && |s.box.retdata| == RETDATA_SIZE
    && Phase(s, h)
    && Answering(s.daemon, s.box)
    && Log(h)
  }

  // --------------------------------------------------------- the step lemmas

  lemma CallKeeps(s: State, h: History, c: nat, cmd: nat, arg: Bytes)
    requires Inv(s, h) && Enabled(s, Call(c, cmd, arg))
    ensures Inv(Next(s, Call(c, cmd, arg)), Record(s, h, Call(c, cmd, arg)))
  {
    hide ArgSize, ReplySize, RetVal, AnswersData, AnsweredArg;
  }

  lemma LockFakeKeeps(s: State, h: History, c: nat)
    requires Inv(s, h) && Enabled(s, LockFake(c))
    ensures Inv(Next(s, LockFake(c)), Record(s, h, LockFake(c)))
  {
    hide ArgSize, ReplySize, RetVal, AnswersData, AnsweredArg;
  }

  lemma LockIoctlKeeps(s: State, h: History, c: nat)
    requires Inv(s, h) && Enabled(s, LockIoctl(c))
    ensures Inv(Next(s, LockIoctl(c)), Record(s, h, LockIoctl(c)))
  {
    hide ArgSize, ReplySize, RetVal, AnswersData, AnsweredArg;
  }

  lemma DoSetCmdKeeps(s: State, h: History, c: nat)
    requires Inv(s, h) && Enabled(s, DoSetCmd(c))
    ensures Inv(Next(s, DoSetCmd(c)), Record(s, h, DoSetCmd(c)))
  {
    hide ArgSize, ReplySize, RetVal, AnswersData, AnsweredArg;
    var h' := Record(s, h, DoSetCmd(c));
    forall id | 0 <= id < |h.replies| ensures Completed(h', id) {
      assert Completed(h, id);
    }
  }

  lemma DoSetRestKeeps(s: State, h: History, c: nat)
    requires Inv(s, h) && Enabled(s, DoSetRest(c))
    ensures Inv(Next(s, DoSetRest(c)), Record(s, h, DoSetRest(c)))
  {
    hide ArgSize, ReplySize, RetVal, AnswersData, AnsweredArg;
  }

  lemma PublishKeeps(s: State, h: History, c: nat)
    requires Inv(s, h) && Enabled(s, Publish(c))
    ensures Inv(Next(s, Publish(c)), Record(s, h, Publish(c)))
  {
    hide ArgSize, ReplySize, RetVal, AnswersData, AnsweredArg;
  }

  lemma WakeKeeps(s: State, h: History, c: nat)
    requires Inv(s, h) && Enabled(s, Wake(c))
    ensures Inv(Next(s, Wake(c)), Record(s, h, Wake(c)))
  {
    hide ArgSize, ReplySize, RetVal, AnswersData, AnsweredArg;
  }

  lemma RelockKeeps(s: State, h: History, c: nat)
    requires Inv(s, h) && Enabled(s, Relock(c))
    ensures Inv(Next(s, Relock(c)), Record(s, h, Relock(c)))
  {
    hide ArgSize, ReplySize, RetVal, AnswersData, AnsweredArg;
  }

  lemma DoCollectKeeps(s: State, h: History, c: nat)
    requires Inv(s, h) && Enabled(s, DoCollect(c))
    ensures Inv(Next(s, DoCollect(c)), Record(s, h, DoCollect(c)))
  {
    hide ArgSize, RetVal, IocIn;
    var id := |h.replies|;
    var b, r := s.box, h.requests[id];
    if r.cmd != ULONG_MAX && AnswersData(r.cmd) {
      var payload := h.posts[id];
      assert b.retdata[4..4 + b.ioctllen] == b.retdata[..|payload|][4..];
    }
  }

  lemma UnlockIoctlKeeps(s: State, h: History, c: nat)
    requires Inv(s, h) && Enabled(s, UnlockIoctl(c))
    ensures Inv(Next(s, UnlockIoctl(c)), Record(s, h, UnlockIoctl(c)))
  {
    hide ArgSize, ReplySize, RetVal, AnswersData, AnsweredArg;
  }

  lemma UnlockFakeKeeps(s: State, h: History, c: nat)
    requires Inv(s, h) && Enabled(s, UnlockFake(c))
    ensures Inv(Next(s, UnlockFake(c)), Record(s, h, UnlockFake(c)))
  {
    hide ArgSize, ReplySize, RetVal, AnswersData, AnsweredArg;
    var h' := Record(s, h, UnlockFake(c));
    forall id | 0 <= id < |h'.replies| ensures Completed(h', id) {
      if id < |h.replies| { assert Completed(h, id); }
    }
  }

  lemma StartReadKeeps(s: State, h: History)
    requires Inv(s, h) && Enabled(s, StartRead)
    ensures Inv(Next(s, StartRead), Record(s, h, StartRead))
  {
    hide ArgSize, ReplySize, RetVal, AnswersData, AnsweredArg;
  }

  lemma LockReadKeeps(s: State, h: History)
    requires Inv(s, h) && Enabled(s, LockRead)
    ensures Inv(Next(s, LockRead), Record(s, h, LockRead))
  {
    hide ArgSize, ReplySize, RetVal, AnswersData, AnsweredArg;
  }

  lemma DoReadKeeps(s: State, h: History, ok: bool)
    requires Inv(s, h) && Enabled(s, DoRead(ok))
    ensures Inv(Next(s, DoRead(ok)), Record(s, h, DoRead(ok)))
  {
    hide ArgSize, ReplySize, RetVal, AnswersData, AnsweredArg;
    var h' := Record(s, h, DoRead(ok));
    forall id | 0 <= id < |h.replies| ensures Completed(h', id) {
      assert Completed(h, id);
    }
  }

  lemma EndReadKeeps(s: State, h: History)
    requires Inv(s, h) && Enabled(s, EndRead)
    ensures Inv(Next(s, EndRead), Record(s, h, EndRead))
  {
    hide ArgSize, ReplySize, RetVal, AnswersData, AnsweredArg;
  }

  lemma StartReplyKeeps(s: State, h: History, cmd: nat, payload: Bytes)
    requires Inv(s, h) && Enabled(s, StartReply(cmd, payload))
    ensures Inv(Next(s, StartReply(cmd, payload)), Record(s, h, StartReply(cmd, payload)))
  {
    hide ArgSize, ReplySize, RetVal, AnswersData, AnsweredArg;
  }

  lemma LockReplyKeeps(s: State, h: History)
    requires Inv(s, h) && Enabled(s, LockReply)
    ensures Inv(Next(s, LockReply), Record(s, h, LockReply))
  {
    hide ArgSize, ReplySize, RetVal, AnswersData, AnsweredArg;
  }

  lemma DoCopyKeeps(s: State, h: History, n: nat)
    requires Inv(s, h) && Enabled(s, DoCopy(n))
    ensures Inv(Next(s, DoCopy(n)), Record(s, h, DoCopy(n)))
  {
    hide ArgSize, ReplySize, RetVal, AnswersData, AnsweredArg;
  }

  // The return value is in the first bytes.
  lemma RetValPrefix(retdata: Bytes, n: nat)
    requires 4 <= n <= |retdata|
    ensures RetVal(retdata[..n]) == RetVal(retdata)
  {
    assert forall i :: 0 <= i < 4 ==> retdata[..n][i] == retdata[i];
  }

  lemma DoValueKeeps(s: State, h: History)
    requires Inv(s, h) && Enabled(s, DoValue)
    ensures Inv(Next(s, DoValue), Record(s, h, DoValue))
  {
    hide ArgSize, AnswersData, AnsweredArg, RetVal;
    RetValPrefix(s.box.retdata, |s.daemon.payload|);
  }

  lemma DoFinishKeeps(s: State, h: History)
    requires Inv(s, h) && Enabled(s, DoFinish)
    ensures Inv(Next(s, DoFinish), Record(s, h, DoFinish))
  {
    hide ArgSize, ReplySize, RetVal, AnswersData, AnsweredArg;
    var h' := Record(s, h, DoFinish);
    forall id | 0 <= id < |h.replies| ensures Completed(h', id) {
      assert Completed(h, id);
    }
  }

  lemma EndReplyKeeps(s: State, h: History)
    requires Inv(s, h) && Enabled(s, EndReply)
    ensures Inv(Next(s, EndReply), Record(s, h, EndReply))
  {
    hide ArgSize, ReplySize, RetVal, AnswersData, AnsweredArg;
  }

  // -------------------------------------------------------------- whole runs

  // Nobody is in a call, and the mailbox is empty, as after device creation.
  ghost predicate IsInitial(s: State) {
    && s.fake == None && s.lock == Free && s.daemon == Away
    && s.box.ioctlcmd == ULONG_MAX && |s.box.retdata| == RETDATA_SIZE
    && forall c :: 0 <= c < |s.clients| ==> s.clients[c].pc == Outside
  }

  const NOTHING_YET: History := History([], [], map[], [])

  // (s, h) is reached from s0 by the steps, in the order they were taken.
  ghost predicate Reached(s0: State, steps: seq<Event>, s: State, h: History) {
    if steps == [] then s == s0 && h == NOTHING_YET
    else
      var n := |steps| - 1;
      exists s1, h1 ::
        Reached(s0, steps[..n], s1, h1) && Enabled(s1, steps[n])
        && s == Next(s1, steps[n]) && h == Record(s1, h1, steps[n])
  }

  lemma StepKeeps(s: State, h: History, e: Event)
    requires Inv(s, h) && Enabled(s, e)
    ensures Inv(Next(s, e), Record(s, h, e))
  {
    hide Inv, Enabled, Next, Record;
    match e
    case Call(c, cmd, arg) => CallKeeps(s, h, c, cmd, arg);
    case LockFake(c) => LockFakeKeeps(s, h, c);
    case LockIoctl(c) => LockIoctlKeeps(s, h, c);
    case DoSetCmd(c) => DoSetCmdKeeps(s, h, c);
    case DoSetRest(c) => DoSetRestKeeps(s, h, c);
    case Publish(c) => PublishKeeps(s, h, c);
    case Wake(c) => WakeKeeps(s, h, c);
    case Relock(c) => RelockKeeps(s, h, c);
    case DoCollect(c) => DoCollectKeeps(s, h, c);
    case UnlockIoctl(c) => UnlockIoctlKeeps(s, h, c);
    case UnlockFake(c) => UnlockFakeKeeps(s, h, c);
    case StartRead => StartReadKeeps(s, h);
    case LockRead => LockReadKeeps(s, h);
    case DoRead(ok) => DoReadKeeps(s, h, ok);
    case EndRead => EndReadKeeps(s, h);
    case StartReply(cmd, payload) => StartReplyKeeps(s, h, cmd, payload);
    case LockReply => LockReplyKeeps(s, h);
    case DoCopy(n) => DoCopyKeeps(s, h, n);
    case DoValue => DoValueKeeps(s, h);
    case DoFinish => DoFinishKeeps(s, h);
    case EndReply => EndReplyKeeps(s, h);
  }

  lemma {:induction false} RunKeeps(s0: State, steps: seq<Event>, s: State, h: History)
    requires IsInitial(s0) && Reached(s0, steps, s, h)
    ensures Inv(s, h)
  {
    if steps == [] {
      assert Inv(s0, NOTHING_YET);
    } else {
      hide Inv, Enabled, Next, Record, IsInitial;
      var n := |steps| - 1;
      var s1, h1 :|
        Reached(s0, steps[..n], s1, h1) && Enabled(s1, steps[n])
        && s == Next(s1, steps[n]) && h == Record(s1, h1, steps[n]);
      RunKeeps(s0, steps[..n], s1, h1);
      StepKeeps(s1, h1, steps[n]);
    }
  }

  /** In every interleaving: at most one published request is not completed;
      what the daemon reads is that request; it reads each request at most once. */
  lemma RequestsOneAtATime(s0: State, steps: seq<Event>, s: State, h: History)
    requires IsInitial(s0) && Reached(s0, steps, s, h)
    ensures |h.replies| <= |h.requests| <= |h.replies| + 1
    ensures Readable(s.box).Some? && !s.lock.ByClient? ==>
      && |h.requests| == |h.replies| + 1 && |h.replies| !in h.posts
      && var r := h.requests[|h.replies|]; Readable(s.box) == Some(Message(r.cmd, r.client, r.arg))
    ensures forall k, l :: 0 <= k < l < |h.delivered| ==> h.delivered[k].0 != h.delivered[l].0
    ensures forall k :: 0 <= k < |h.delivered| ==>
      && h.delivered[k].0 < |h.requests|
      && var r := h.requests[h.delivered[k].0]; h.delivered[k].1 == Message(r.cmd, r.client, r.arg)
  {
    RunKeeps(s0, steps, s, h);
    hide ArgSize, ReplySize, RetVal, AnswersData, AnsweredArg, Fits, Answering;
  }

  /** In every interleaving: each completed call returned to the client that made
      it, with exactly the value and data of the one answer that was accepted for
      that request; and there is such an answer exactly when the command number
      is not the one that marks an empty mailbox. */
  lemma CallsReturnTheirAnswer(s0: State, steps: seq<Event>, s: State, h: History, id: nat)
    requires IsInitial(s0) && Reached(s0, steps, s, h) && id < |h.replies|
    ensures id < |h.requests| && h.replies[id].client == h.requests[id].client
    ensures id in h.posts <==> h.requests[id].cmd != ULONG_MAX
    ensures id in h.posts ==>
      && |h.posts[id]| == ReplySize(h.requests[id].cmd)
      && h.replies[id].ret == RetVal(h.posts[id])
      && h.replies[id].arg == AnsweredArg(h.requests[id], h.posts[id])
  {
    RunKeeps(s0, steps, s, h);
    hide ArgSize, ReplySize, RetVal, AnswersData, AnsweredArg, Fits, Answering, Phase, Locks;
    assert Completed(h, id);
  }

  // ------------------------------------------------------- commands by their bits

  /** A command number: two bits for the direction, 1 for a write, 2 for a read and
      3 for both, fourteen for the size of the argument, and the rest. */
  predicate IsCommand(cmd: nat, dir: nat, size: nat, rest: nat) {
    dir < 4 && size < 0x4000 && rest < 0x1_0000 && cmd == dir * 0x4000_0000 + size * 0x1_0000 + rest
  }

  lemma CommandBits(cmd: nat, dir: nat, size: nat, rest: nat)
    requires IsCommand(cmd, dir, size, rest)
    ensures IocSize(cmd) == size && (IocIn(cmd) <==> dir == 1 || dir == 3)
  {
    assert cmd / 0x1_0000 == dir * 0x4000 + size;
    assert cmd / 0x4000_0000 == dir;
  }

  // The signed number in four bytes, the first the least significant.
  predicate SignedBytes(v: int, b: Bytes)
    requires |b| >= 4
  {
    && -0x8000_0000 <= v < 0x8000_0000
    && var u := b[0] as int + 0x100 * b[1] as int + 0x1_0000 * b[2] as int + 0x100_0000 * b[3] as int;
    v == u || v == u - 0x1_0000_0000
  }

  lemma RetValSigned(b: Bytes)
    requires |b| >= 4
    ensures SignedBytes(RetVal(b), b)
  {
  }

  /** What a completed and answered call returns: the posted bytes behind the first
      four, as many as its command says, if the command is one of the driver's own
      ten or one that does not write, and otherwise its own argument; and the
      signed number in the first four posted bytes. */
  lemma CallsReturnPostedBytes(s0: State, steps: seq<Event>, s: State, h: History, id: nat,
                               dir: nat, size: nat, rest: nat)
    requires IsInitial(s0) && Reached(s0, steps, s, h) && id < |h.replies| && id in h.posts
    requires id < |h.requests| && IsCommand(h.requests[id].cmd, dir, size, rest)
    ensures var cmd, post := h.requests[id].cmd, h.posts[id];
      && |post| == 4 + (if cmd < 10 then 8 else if dir == 0 || dir == 2 then size else 0)
      && h.replies[id].arg == (if cmd < 10 || dir == 0 || dir == 2 then post[4..] else h.requests[id].arg)
      && SignedBytes(h.replies[id].ret, post)
  {
    CommandBits(h.requests[id].cmd, dir, size, rest);
    hide IocSize, IocIn, RetVal, Reached, IsInitial, IsCommand, SignedBytes;
    CallsReturnTheirAnswer(s0, steps, s, h, id);
    RetValSigned(h.posts[id]);
  }

  /** What the second critical section gives the client once the mailbox is empty. */
  lemma CollectGives(b: Mailbox, c: Client, dir: nat, size: nat, rest: nat)
    requires IsCommand(c.cmd, dir, size, rest) && b.ioctlcmd == 0xFFFF_FFFF && 4 + b.ioctllen <= |b.retdata|
    ensures Collect(b, c).ret == b.retval
    ensures Collect(b, c).arg == if c.cmd < 10 || dir == 0 || dir == 2 then b.retdata[4..4 + b.ioctllen] else c.arg
  {
    CommandBits(c.cmd, dir, size, rest);
    hide IocSize, IocIn, IsCommand;
  }

  /** And how many bytes the first one announces. */
  lemma RequestSize(b: Mailbox, fd: nat, arg: Bytes, cmd: nat, dir: nat, size: nat, rest: nat)
    requires IsCommand(cmd, dir, size, rest)
    ensures SetRest(b, cmd, fd, arg).ioctllen == if cmd < 10 then 8 else size
  {
    CommandBits(cmd, dir, size, rest);
    hide IocSize, IsCommand;
  }

  /** In every interleaving: the test after the wait never fails, so no call ends with -1 of its own. */
  lemma CollectSucceeds(s0: State, steps: seq<Event>, s: State, h: History, c: nat)
    requires IsInitial(s0) && Reached(s0, steps, s, h) && At(s, c, Collecting)
    ensures s.box.ioctlcmd == ULONG_MAX
  {
    RunKeeps(s0, steps, s, h);
    hide ArgSize, ReplySize, RetVal, AnswersData, AnsweredArg, Fits, Answering, Log;
  }

  /** In every interleaving: a request that the daemon has read and not yet
      answered is still the one in the mailbox, under its own command number, so
      the daemon's answer to it is not taken for another request's. */
  lemma ReadRequestWaits(s0: State, steps: seq<Event>, s: State, h: History, k: nat)
    requires IsInitial(s0) && Reached(s0, steps, s, h)
    requires k < |h.delivered| && h.delivered[k].0 !in h.posts
    ensures h.delivered[k].0 == |h.replies| == |h.requests| - 1
    ensures s.box.ioctlcmd == h.delivered[k].1.cmd && s.box.alreadyRead
  {
    RunKeeps(s0, steps, s, h);
    hide ArgSize, ReplySize, RetVal, AnswersData, AnsweredArg, Answered, Fits, Answering, Locks, Enabled, Reached;
    var id := h.delivered[k].0;
    assert id < |h.replies| ==> Completed(h, id);
    hide Log, Completed;
  }

  // ------------------------------------------------------- no call is stuck

  // How far a call is from its end, counted in the client's own steps.
  function Rank(pc: Pc): nat {
    match pc
    case WantIoctl => 8
    case SettingCmd => 7
    case SettingRest => 6
    case Publishing => 5
    case Waiting => 4
    case Relocking => 3
    case Collecting => 2
    case Collected => 1
    case _ => 0
  }

  // The daemon's steps until it gives lock_ioctl back.
  function ToRelease(d: Daemon): (n: nat)
    ensures n <= 4
  {
    match d
    case Reading => 2
    case ReadDone => 1
    case Replying(_, _) => 4
    case Copied(_, _) => 3
    case Valued(_, _) => 2
    case ReplyDone => 1
    case _ => 0
  }

  // The daemon's steps until it has answered the command, perhaps after a read
  // or an answer to something else.
  function ToAnswer(d: Daemon, cmd: nat): (n: nat)
    ensures n <= 8
  {
    match d
    case Valued(_, _) => 1
    case Copied(_, _) => 2
    case Replying(c, _) => if c == cmd then 3 else 7
    case WantReply(c, _) => if c == cmd then 4 else 8
    case Away => 5
    case ReplyDone => 6
    case ReadDone => 6
    case Reading => 7
    case WantRead => 8
  }

  function Distance(s: State, c: nat): nat
    requires c < |s.clients|
  {
    var pc := s.clients[c].pc;
    20 * Rank(pc)
    + if pc.WantIoctl? || pc.Relocking? then ToRelease(s.daemon)
      else if pc.Waiting? && s.box.ioctlcmd != ULONG_MAX then ToAnswer(s.daemon, s.box.ioctlcmd)
      else 0
  }

  // The step with which the daemon comes closer to giving the mutex back.
  function Releasing(d: Daemon): Event {
    match d
    case Reading => DoRead(true)
    case ReadDone => EndRead
    case Replying(_, _) => DoCopy(0)
    case Copied(_, _) => DoValue
    case Valued(_, _) => DoFinish
    case _ => EndReply
  }

  // The step with which the daemon comes closer to an answer.
  function AnsweringStep(d: Daemon, cmd: nat): Event {
    match d
    case Valued(_, _) => DoFinish
    case Copied(_, _) => DoValue
    case Replying(c, payload) => DoCopy(if c == cmd then |payload| else 0)
    case WantReply(_, _) => LockReply
    case Away => StartReply(cmd, seq(ReplySize(cmd), _ => 0))
    case ReplyDone => EndReply
    case ReadDone => EndRead
    case Reading => DoRead(true)
    case WantRead => LockRead
  }

  // A step that brings the call of the client in the mailbox closer to its end.
  function Helpful(s: State, c: nat): Event
    requires c < |s.clients|
  {
    match s.clients[c].pc
    case WantIoctl => if s.lock == Free then LockIoctl(c) else Releasing(s.daemon)
    case SettingCmd => DoSetCmd(c)
    case SettingRest => DoSetRest(c)
    case Publishing => Publish(c)
    case Waiting => if s.box.ioctlcmd == ULONG_MAX then Wake(c) else AnsweringStep(s.daemon, s.box.ioctlcmd)
    case Relocking => if s.lock == Free then Relock(c) else Releasing(s.daemon)
    case Collecting => DoCollect(c)
    case Collected => UnlockIoctl(c)
    case _ => UnlockFake(c)
  }

  // Nobody but the daemon can keep the client from lock_ioctl.
  lemma OnlyDaemonHolds(s: State, h: History, c: nat)
    requires Inv(s, h) && s.fake == Some(c) && !HoldsLock(s.clients[c].pc)
    ensures c < |s.clients| && (s.lock == Free || s.lock == ByDaemon)
  {
    hide Phase, Answering, Log, Fits;
    assert s.lock.ByClient? ==> HoldsLock(s.clients[s.lock.c].pc);
  }

  lemma ReleasingHelps(s: State, h: History)
    requires Inv(s, h) && s.lock == ByDaemon
    ensures var e := Releasing(s.daemon);
      Enabled(s, e) && ToRelease(Next(s, e).daemon) < ToRelease(s.daemon) && Next(s, e).clients == s.clients
        && Next(s, e).fake == s.fake
  {
    hide Locks, Phase, Log, Fits, ReplySize, RetVal;
  }

  lemma AnsweringHelps(s: State, h: History, c: nat)
    requires Inv(s, h) && s.fake == Some(c) && c < |s.clients| && s.clients[c].pc == Waiting
      && s.box.ioctlcmd != ULONG_MAX
    ensures var e := AnsweringStep(s.daemon, s.box.ioctlcmd);
      && Enabled(s, e) && Next(s, e).clients == s.clients && Next(s, e).fake == s.fake
      && (Next(s, e).box.ioctlcmd == ULONG_MAX
          || (Next(s, e).box.ioctlcmd == s.box.ioctlcmd
              && ToAnswer(Next(s, e).daemon, s.box.ioctlcmd) < ToAnswer(s.daemon, s.box.ioctlcmd)))
  {
    hide Log, RetVal, ArgSize;
    OnlyDaemonHolds(s, h, c);
    assert s.clients[c].cmd == s.box.ioctlcmd;
    hide Locks, Phase;
  }

  // What a helpful step has to achieve: it is possible, touches no other client,
  // and brings the call closer to its end or ends it.
  ghost predicate Helps(s: State, c: nat, e: Event)
    requires c < |s.clients|
  {
    && Enabled(s, e)
    && var s' := Next(s, e);
    && |s'.clients| == |s.clients|
    && (forall j :: 0 <= j < |s.clients| && j != c ==> s'.clients[j] == s.clients[j])
    && if s'.fake == Some(c) then Distance(s', c) < Distance(s, c) else s'.fake == None && s'.clients[c].pc == Outside
  }

  // The client's own steps.
  lemma OwnStepHelps(s: State, c: nat)
    requires s.fake == Some(c) && c < |s.clients| && HoldsFake(s.clients[c].pc)
    requires var pc := s.clients[c].pc;
      && (pc.WantIoctl? || pc.Relocking? ==> s.lock == Free)
      && (pc.Waiting? ==> s.box.ioctlcmd == ULONG_MAX)
      && (pc.Collecting? && AnswersData(s.clients[c].cmd) ==> 4 + s.box.ioctllen <= |s.box.retdata|)
    ensures Helps(s, c, Helpful(s, c))
  {
    hide RetVal, ArgSize, ReplySize, AnswersData, ToAnswer, ToRelease;
  }

  lemma CollectFits(s: State, h: History, c: nat)
    requires Inv(s, h) && s.fake == Some(c) && c < |s.clients| && s.clients[c].pc == Collecting
    ensures AnswersData(s.clients[c].cmd) ==> 4 + s.box.ioctllen <= |s.box.retdata|
  {
    hide Log, RetVal, ArgSize, Answering, Locks, AnswersData;
  }

  // The daemon's steps that the client waits for.
  lemma DaemonStepHelps(s: State, h: History, c: nat)
    requires Inv(s, h) && s.fake == Some(c) && c < |s.clients|
    requires var pc := s.clients[c].pc;
      ((pc.WantIoctl? || pc.Relocking?) && s.lock == ByDaemon) || (pc.Waiting? && s.box.ioctlcmd != ULONG_MAX)
    ensures Helps(s, c, Helpful(s, c))
  {
    if s.clients[c].pc.Waiting? {
      AnsweringHelps(s, h, c);
    } else {
      ReleasingHelps(s, h);
    }
    hide Inv, Enabled, Next, Releasing, AnsweringStep;
  }

  /** Whatever the threads have done, there is a step that brings the call that
      holds lock_fake_ioctl closer to its end. */
  lemma HelpfulHelps(s: State, h: History, c: nat)
    requires Inv(s, h) && s.fake == Some(c)
    ensures c < |s.clients| && Helps(s, c, Helpful(s, c))
  {
    hide Phase, Log, Answering, Helps, Helpful;
    assert HoldsFake(s.clients[c].pc);
    var pc := s.clients[c].pc;
    if pc.WantIoctl? || pc.Relocking? {
      OnlyDaemonHolds(s, h, c);
      if s.lock == ByDaemon { DaemonStepHelps(s, h, c); } else { OwnStepHelps(s, c); }
    } else if pc.Waiting? && s.box.ioctlcmd != ULONG_MAX {
      DaemonStepHelps(s, h, c);
    } else {
      if pc.Collecting? { CollectFits(s, h, c); }
      OwnStepHelps(s, c);
    }
  }

  // The steps lead from one state to another.
  ghost predicate Leads(s: State, h: History, steps: seq<Event>, s': State, h': History)
    decreases |steps|
  {
    if steps == [] then s' == s && h' == h
    else Enabled(s, steps[0]) && Leads(Next(s, steps[0]), Record(s, h, steps[0]), steps[1..], s', h')
  }

  lemma LeadsStep(s: State, h: History, e: Event, steps: seq<Event>, s': State, h': History)
    requires Enabled(s, e) && Leads(Next(s, e), Record(s, h, e), steps, s', h')
    ensures Leads(s, h, [e] + steps, s', h')
  {
    assert ([e] + steps)[1..] == steps;
  }

  lemma {:induction false} LeadsOn(s: State, h: History, a: seq<Event>, s1: State, h1: History, b: seq<Event>,
                                   s': State, h': History)
    requires Leads(s, h, a, s1, h1) && Leads(s1, h1, b, s', h')
    ensures Leads(s, h, a + b, s', h')
    decreases |a|
  {
    hide Enabled, Next, Record;
    if a == [] {
      assert a + b == b;
    } else {
      LeadsOn(Next(s, a[0]), Record(s, h, a[0]), a[1..], s1, h1, b, s', h');
      assert a + b == [a[0]] + (a[1..] + b);
      LeadsStep(s, h, a[0], a[1..] + b, s', h');
    }
  }

  // The call that holds lock_fake_ioctl can be brought to its end.
  lemma {:induction false} HolderCanEnd(s: State, h: History, c: nat)
      returns (steps: seq<Event>, s': State, h': History)
    requires Inv(s, h) && s.fake == Some(c)
    ensures Leads(s, h, steps, s', h') && Inv(s', h')
    ensures s'.fake == None && |s'.clients| == |s.clients| && c < |s.clients| && s'.clients[c].pc == Outside
    ensures forall j :: 0 <= j < |s.clients| && j != c ==> s'.clients[j] == s.clients[j]
    decreases if c < |s.clients| then Distance(s, c) else 0
  {
    hide Inv, Enabled, Next, Record, Distance, Helpful;
    HelpfulHelps(s, h, c);
    var e := Helpful(s, c);
    StepKeeps(s, h, e);
    var s1, h1 := Next(s, e), Record(s, h, e);
    if s1.fake == Some(c) {
      steps, s', h' := HolderCanEnd(s1, h1, c);
      LeadsStep(s, h, e, steps, s', h');
      steps := [e] + steps;
    } else {
      steps, s', h' := [e], s1, h1;
      LeadsStep(s, h, e, [], s1, h1);
    }
  }

  lemma LockingFake(s: State, h: History, c: nat)
    requires Inv(s, h) && c < |s.clients| && s.clients[c].pc == WantFake && s.fake == None
    ensures Enabled(s, LockFake(c)) && Next(s, LockFake(c)).fake == Some(c)
  {
  }

  lemma WhoWaits(s: State, h: History, c: nat)
    requires Inv(s, h) && c < |s.clients| && s.clients[c].pc != Outside && s.fake != Some(c)
    ensures s.clients[c].pc == WantFake
  {
    hide Phase, Log, Answering, Fits;
  }

  /** No interleaving leaves a call stuck: from every reachable state, every call
      that has begun can still return. */
  lemma EveryCallCanReturn(s0: State, steps0: seq<Event>, s: State, h: History, c: nat)
      returns (steps: seq<Event>, s': State, h': History)
    requires IsInitial(s0) && Reached(s0, steps0, s, h) && c < |s.clients| && s.clients[c].pc != Outside
    ensures Leads(s, h, steps, s', h') && |s'.clients| == |s.clients| && s'.clients[c].pc == Outside
  {
    hide Inv, Enabled, Next, Record;
    RunKeeps(s0, steps0, s, h);
    if s.fake == Some(c) {
      steps, s', h' := HolderCanEnd(s, h, c);
    } else {
      WhoWaits(s, h, c);
      var first, s1, h1 := [], s, h;
      if s.fake.Some? {
        first, s1, h1 := HolderCanEnd(s, h, s.fake.value);
      }
      var lock := LockFake(c);
      LockingFake(s1, h1, c);
      StepKeeps(s1, h1, lock);
      var s2, h2 := Next(s1, lock), Record(s1, h1, lock);
      SameClients(s1, c);
      var rest;
      rest, s', h' := HolderCanEnd(s2, h2, c);
      LeadsStep(s1, h1, lock, rest, s', h');
      LeadsOn(s, h, first, s1, h1, [lock] + rest, s', h');
      steps := first + ([lock] + rest);
    }
  }

  lemma SameClients(s: State, c: nat)
    requires Enabled(s, LockFake(c))
    ensures |Next(s, LockFake(c)).clients| == |s.clients|
  {
  }

  // ---------------------------------------------- the reserved command number

  // Only client 0 has done anything: it is in a call with the reserved number.
  ghost predicate Alone(s0: State, s: State, h: History, arg: Bytes) {
    && s.clients != [] && |arg| == ArgSize(ULONG_MAX)
    && var client := s.clients[0];
    && client.cmd == ULONG_MAX && client.arg == arg && !client.pc.Outside?
    && s.fake == (if HoldsFake(client.pc) then Some(0) else None)
    && s.lock == (if HoldsLock(client.pc) then ByClient(0) else Free)
    && s.box.ioctlcmd == ULONG_MAX && s.box.retval == s0.box.retval
    && (client.pc.Collected? || client.pc.Leaving? ==> client.ret == s0.box.retval)
    && h.requests == (if Published(client.pc) then [Request(0, ULONG_MAX, arg)] else [])
    && h.posts == map[] && h.replies == []
  }

  lemma AloneStep(s0: State, s: State, h: History, arg: Bytes)
    requires Alone(s0, s, h, arg) && HoldsFake(s.clients[0].pc) && !s.clients[0].pc.Leaving?
    ensures var e := Helpful(s, 0);
      Enabled(s, e) && Alone(s0, Next(s, e), Record(s, h, e), arg)
      && HoldsFake(Next(s, e).clients[0].pc) && Rank(Next(s, e).clients[0].pc) < Rank(s.clients[0].pc)
  {
    assert !AnswersData(ULONG_MAX);
    hide ArgSize, AnswersData, RetVal;
  }

  lemma ReachedNext(s0: State, steps: seq<Event>, s: State, h: History, e: Event)
    requires Reached(s0, steps, s, h) && Enabled(s, e)
    ensures Reached(s0, steps + [e], Next(s, e), Record(s, h, e))
  {
    hide Enabled, Next, Record;
    assert (steps + [e])[..|steps|] == steps;
  }

  lemma {:induction false} AloneLeaves(s0: State, steps: seq<Event>, s: State, h: History, arg: Bytes)
      returns (steps': seq<Event>, s': State, h': History)
    requires Reached(s0, steps, s, h) && Alone(s0, s, h, arg) && HoldsFake(s.clients[0].pc)
    ensures Reached(s0, steps', s', h') && Alone(s0, s', h', arg) && s'.clients[0].pc.Leaving?
    decreases if s.clients != [] then Rank(s.clients[0].pc) else 0
  {
    hide Reached, Next, Record, Enabled, Helpful;
    steps', s', h' := steps, s, h;
    if !s.clients[0].pc.Leaving? {
      AloneStep(s0, s, h, arg);
      var e := Helpful(s, 0);
      ReachedNext(s0, steps, s, h, e);
      steps', s', h' := AloneLeaves(s0, steps + [e], Next(s, e), Record(s, h, e), arg);
    }
  }

  lemma AloneBegins(s0: State, arg: Bytes)
    requires IsInitial(s0) && s0.clients != [] && |arg| == ArgSize(ULONG_MAX)
    ensures var call := Call(0, ULONG_MAX, arg);
      Enabled(s0, call) && var s, h := Next(s0, call), Record(s0, NOTHING_YET, call);
      Enabled(s, LockFake(0)) && var s', h' := Next(s, LockFake(0)), Record(s, h, LockFake(0));
      Alone(s0, s', h', arg) && HoldsFake(s'.clients[0].pc)
  {
    assert !AnswersData(ULONG_MAX);
    hide ArgSize, AnswersData, RetVal;
  }

  lemma AloneEnds(s0: State, s: State, h: History, arg: Bytes)
    requires Alone(s0, s, h, arg) && s.clients[0].pc.Leaving?
    ensures Enabled(s, UnlockFake(0))
    ensures var h' := Record(s, h, UnlockFake(0));
      h'.requests == [Request(0, ULONG_MAX, arg)] && h'.posts == map[] && h'.replies == [Return(0, s0.box.retval, arg)]
  {
    hide ArgSize, AnswersData, RetVal;
  }

  /** The exception is real: a call with the reserved command number ends with no
      answer posted for it, its argument as it was, and the value that was left in
      the mailbox. */
  lemma ReservedCallReturnsOldValue(s0: State, arg: Bytes) returns (steps: seq<Event>, s: State, h: History)
    requires IsInitial(s0) && s0.clients != [] && |arg| == ArgSize(ULONG_MAX)
    ensures Reached(s0, steps, s, h)
    ensures h.requests == [Request(0, ULONG_MAX, arg)] && h.posts == map[]
    ensures h.replies == [Return(0, s0.box.retval, arg)]
  {
    AloneBegins(s0, arg);
    steps, s, h := [], s0, NOTHING_YET;
    assert Reached(s0, steps, s, h);
    hide Reached, Next, Record, Enabled, Alone, ArgSize, IsInitial;
    var call := Call(0, ULONG_MAX, arg);
    ReachedNext(s0, steps, s, h, call);
    steps, s, h := steps + [call], Next(s, call), Record(s, h, call);
    ReachedNext(s0, steps, s, h, LockFake(0));
    steps, s, h := steps + [LockFake(0)], Next(s, LockFake(0)), Record(s, h, LockFake(0));
    steps, s, h := AloneLeaves(s0, steps, s, h, arg);
    AloneEnds(s0, s, h, arg);
    ReachedNext(s0, steps, s, h, UnlockFake(0));
    steps, s, h := steps + [UnlockFake(0)], Next(s, UnlockFake(0)), Record(s, h, UnlockFake(0));
  }

  // ---------------------------------------------------------------- the code

  /** The mailbox fields of struct dvblb_devinfo; each method is what one thread
      does between locking and unlocking lock_ioctl. */
  class DvblbDevinfo {
    var ioctlcmd: nat
    var alreadyRead: bool
    var ioctllen: nat
    var ioctlfd: nat
    var ioctldata: Bytes
    const retdata: array<bv8>
    var retval: int

    ghost function Box(): Mailbox
      reads this, retdata
    {
      Mailbox(ioctlcmd, alreadyRead, ioctllen, ioctlfd, ioctldata, retdata[..], retval)
    }

    constructor ()
      ensures Box().ioctlcmd == ULONG_MAX && Box().alreadyRead && retdata.Length == RETDATA_SIZE && fresh(retdata)
    {
      ioctlcmd := ULONG_MAX;
      alreadyRead := true;
      ioctllen, ioctlfd, retval := 0, 0, 0;
      ioctldata := [];
      retdata := new bv8[RETDATA_SIZE];
    }

    // dvblb_fake_ioctl, first critical section.
    method FakeIoctlPublish(cmd: nat, f: nat, arg: Bytes)
      modifies this
      ensures Box() == SetRest(SetCmd(old(Box()), cmd), cmd, f, arg)
    {
      ioctlcmd := cmd;
      alreadyRead := false;
      if cmd < MAX_CMDS {
        ioctllen := CUSTOMMSG_SIZE;
      } else {
        ioctllen := IocSize(cmd);
      }
      ioctlfd := f;
      ioctldata := arg;
    }

    // dvblb_fake_ioctl, second critical section.
    method FakeIoctlCollect(cmd: nat, arg: Bytes) returns (ret: int, arg': Bytes)
      requires AnswersData(cmd) ==> 4 + ioctllen <= retdata.Length
      ensures var c := Collect(Box(), Client(Collecting, cmd, arg, 0)); ret == c.ret && arg' == c.arg
    {
      arg' := arg;
      if ioctlcmd != ULONG_MAX {
        return -1, arg';
      }
      if cmd < MAX_CMDS || !IocIn(cmd) {
        arg' := retdata[4..4 + ioctllen];
      }
      ret := retval;
    }

    // dvblb_read on the control device, with a user buffer of count bytes that
    // can be written if userOk.
    method Read(count: nat, userOk: bool) returns (r: Option<Message>)
      modifies this`alreadyRead
      ensures var ok := userOk && count >= 8 + (if ioctllen > 4 then ioctllen else 4);
        && r == (if ok then Readable(old(Box())) else None)
        && Box() == if r.Some? then old(Box()).(alreadyRead := true) else old(Box())
    {
      var cmd := ioctlcmd;
      var size := if ioctllen > 4 then ioctllen else 4;
      if count < 8 + size || ioctlcmd == ULONG_MAX || alreadyRead {
        return None;
      }
      if !userOk {
        return None;
      }
      r := Some(Message(cmd, ioctlfd, ioctldata));
      alreadyRead := true;
    }

    // dvblb_ioctl on the control device: an answer of which the first n bytes
    // can be read from user space.
    method Reply(cmd: nat, payload: Bytes, n: nat)
      requires |payload| == ReplySize(cmd) <= retdata.Length && n <= |payload|
      modifies this`retval, this`ioctlcmd, retdata
      ensures Box() ==
        if cmd != old(ioctlcmd) then old(Box())
        else
          var b := CopyReply(old(Box()), payload, n);
          if n < |payload| then b else SetCmd(b.(retval := RetVal(b.retdata)), ULONG_MAX)
    {
      hide RetVal;
      if cmd != ioctlcmd {
        return;
      }
      forall i | 0 <= i < n { retdata[i] := payload[i]; }
      assert retdata[..] == payload[..n] + old(retdata[..])[n..];
      if n < |payload| {
        return;
      }
      retval := RetVal(retdata[..]);
      ioctlcmd := ULONG_MAX;
    }
  }
}
