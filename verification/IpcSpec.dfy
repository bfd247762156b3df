// Synchronous message passing as an abstract machine.  A process is ready, or
// blocked in a send or in a receive; every receiver has a queue of blocked
// senders in arrival order.  One call of send_msg, recv_msg or info_task is
// one step.  The class Ipc.Kernel refines these functions on the process
// table and its intrusive lists.
module IpcSpec {
  import opened Constants

  datatype Message = Message(source: int, kind: int, body: seq<int>)

  datatype Mode =
    | Ready
    | Sending(to: int, m: Message)
    | Receiving(from: int)
    | Free

  datatype Sys = Sys(mode: seq<Mode>, hasInt: seq<bool>, queue: seq<seq<int>>, inbox: seq<Message>)

  datatype Packet = Packet(from: int, to: int, m: Message)

  // What a step did.  Met: the receiver was already waiting.  Taken: the
  // receiver picked a queued sender, with ANY or by name.
  datatype Event =
    | Accepted(pk: Packet)
    | Met(pk: Packet)
    | Taken(pk: Packet, any: bool)
    | Signalled(to: int)

  // AssertFailed: one of the kernel's own assertions on its arguments.
  datatype Outcome = Done | Panic | AssertFailed

  datatype Result = Result(sys: Sys, events: seq<Event>, outcome: Outcome)

  // ---------------------------------------------------------------- graph

  // a is blocked sending to b.
  predicate WaitsFor(s: Sys, a: int, b: int) {
    0 <= a < |s.mode| && s.mode[a].Sending? && s.mode[a].to == b
  }

  predicate IsPath(s: Sys, path: seq<int>) {
    && path != []
    && (forall i :: 0 <= i < |path| ==> 0 <= path[i] < |s.mode|)
    && (forall i :: 0 <= i < |path| - 1 ==> WaitsFor(s, path[i], path[i + 1]))
  }

  ghost predicate Reaches(s: Sys, a: int, b: int) {
    exists path :: IsPath(s, path) && path[0] == a && path[|path| - 1] == b
  }

  // path is the whole chain of blocked senders that starts at a.
  predicate IsChain(s: Sys, a: int, path: seq<int>) {
    IsPath(s, path) && path[0] == a && !s.mode[path[|path| - 1]].Sending?
  }

  ghost predicate EndsSomewhere(s: Sys, a: int) {
    exists path :: IsChain(s, a, path)
  }

  // ---------------------------------------------------------------- steps

  predicate Accepts(mode: Mode, from: int) {
    mode.Receiving? && (mode.from == from || mode.from == ANY)
  }

  ghost function Send(s: Sys, p: int, d: int, m: Message): Result
    requires WellShaped(s) && IsPid(p) && IsPid(d)
  {
    var pk := Packet(p, d, m);
    if p == d then Result(s, [], AssertFailed)
    else if Reaches(s, d, p) then Result(s, [], Panic)
    else if Accepts(s.mode[d], p) then
      Result(s.(mode := s.mode[d := Ready], inbox := s.inbox[d := m]), [Accepted(pk), Met(pk)], Done)
    else
      Result(s.(mode := s.mode[p := Sending(d, m)], queue := s.queue[d := s.queue[d] + [p]]), [Accepted(pk)], Done)
  }

  const EMPTY_BODY: seq<int> := []
  const INT_MESSAGE := Message(INTERRUPT, HARD_INT, EMPTY_BODY)

  function IndexOf(q: seq<int>, p: int): (i: nat)
    requires p in q
    ensures i < |q| && q[i] == p && p !in q[..i]
  {
    if q[0] == p then 0 else 1 + IndexOf(q[1..], p)
  }

  function Without(q: seq<int>, i: nat): seq<int>
    requires i < |q|
  {
    q[..i] + q[i + 1..]
  }

  // r takes the message of p, the i-th sender of its queue.
  function Take(s: Sys, r: int, i: nat, any: bool): Result
    requires WellShaped(s) && IsPid(r) && i < |s.queue[r]|
    requires IsPid(s.queue[r][i]) && s.mode[s.queue[r][i]].Sending?
  {
    var p := s.queue[r][i];
    var m := s.mode[p].m;
    Result(
      s.(mode := s.mode[p := Ready], queue := s.queue[r := Without(s.queue[r], i)], inbox := s.inbox[r := m]),
      [Taken(Packet(p, r, m), any)], Done)
  }

  function Receive(s: Sys, r: int, src: int): Result
    requires WellShaped(s) && QueuesMatch(s) && IsPid(r)
    requires IsPid(src) || src == ANY || src == INTERRUPT
  {
    if r == src then Result(s, [], AssertFailed)
    else if s.hasInt[r] && (src == ANY || src == INTERRUPT) then
      Result(s.(hasInt := s.hasInt[r := false], inbox := s.inbox[r := INT_MESSAGE]), [Signalled(r)], Done)
    else if src == ANY && s.queue[r] != [] then Take(s, r, 0, true)
    else if IsPid(src) && src in s.queue[r] then Take(s, r, IndexOf(s.queue[r], src), false)
    else Result(s.(mode := s.mode[r := Receiving(src)]), [], Done)
  }

  // A hardware interrupt for process r.  Only source and type of the waiting
  // buffer are written.
  function Interrupt(s: Sys, r: int): Result
    requires WellShaped(s) && IsPid(r)
  {
    if s.mode[r] == Receiving(INTERRUPT) || s.mode[r] == Receiving(ANY) then
      Result(s.(mode := s.mode[r := Ready], hasInt := s.hasInt[r := false],
                inbox := s.inbox[r := Message(INTERRUPT, HARD_INT, s.inbox[r].body)]), [Signalled(r)], Done)
    else Result(s.(hasInt := s.hasInt[r := true]), [], Done)
  }

  // ------------------------------------------------------------ invariants

  predicate WellShaped(s: Sys) {
    |s.mode| == |s.hasInt| == |s.queue| == |s.inbox| == NR_ALL
  }

  predicate NoDuplicates(q: seq<int>) {
    forall i, j :: 0 <= i < j < |q| ==> q[i] != q[j]
  }

  // Each queue holds exactly the processes blocked sending to its owner, once.
  predicate QueuesMatch(s: Sys)
    requires WellShaped(s)
  {
    && (forall r, i :: 0 <= r < NR_ALL && 0 <= i < |s.queue[r]| ==> WaitsFor(s, s.queue[r][i], r))
    && (forall p :: 0 <= p < NR_ALL && s.mode[p].Sending? ==> IsPid(s.mode[p].to) && p in s.queue[s.mode[p].to])
    && (forall r :: 0 <= r < NR_ALL ==> NoDuplicates(s.queue[r]))
  }

  // No chain of blocked senders runs in a circle: every chain ends.
  ghost predicate Grounded(s: Sys) {
    forall a :: 0 <= a < |s.mode| ==> EndsSomewhere(s, a)
  }

  // No missed meeting and no lost interrupt.
  predicate NothingMissed(s: Sys)
    requires WellShaped(s)
  {
    forall r :: 0 <= r < NR_ALL && s.mode[r].Receiving? ==>
      && (s.mode[r].from == ANY ==> s.queue[r] == [])
      && s.mode[r].from !in s.queue[r]
      && (s.mode[r].from == ANY || s.mode[r].from == INTERRUPT ==> !s.hasInt[r])
  }

  ghost predicate Inv(s: Sys) {
    WellShaped(s) && QueuesMatch(s) && Grounded(s) && NothingMissed(s)
  }
}
