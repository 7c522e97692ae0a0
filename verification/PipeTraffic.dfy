/** The readiness protocol of the proxy loop: `pipeTraffic` in nsjail.cc. */
module PipeTraffic {

  datatype Pipe = Pipe(sockFd: int, pipeIn: int, pipeOut: int, pid: int)

  const ZERO_PIPE := Pipe(0, 0, 0, 0)

  /** `pipemap_t::operator==` leaves the pid out. */
  predicate IsZero(p: Pipe) {
    p.sockFd == 0 && p.pipeIn == 0 && p.pipeOut == 0
  }

  /** The bits POLLIN and POLLOUT of `pollfd.events` */
  datatype Events = Events(pollIn: bool, pollOut: bool)

  /** `pollfd.revents`: POLLIN, POLLOUT, POLLERR or POLLHUP, and any other bit */
  datatype Revents = Revents(pollIn: bool, pollOut: bool, errHup: bool, other: bool)

  /**
   * What the environment does in one round in which `poll` returns a positive number: the bits it reports,
   * whether a signal asks the loop to stop, and for either direction of each connection whether a `splice`
   * there, if made, would return 0.
   */
  datatype Poll = Poll(stop: bool, revents: seq<Revents>, eof: seq<(bool, bool)>)

  predicate Fits(poll: Poll, n: nat) {
    |poll.revents| == 3 * n + 1 && |poll.eof| == n
  }

  /** The listening socket reports something. */
  predicate NewConnection(poll: Poll) {
    poll.revents != [] &&
    var r := poll.revents[|poll.revents| - 1];
    r.pollIn || r.pollOut || r.errHup || r.other
  }

  predicate Ends(poll: Poll) {
    poll.stop || NewConnection(poll)
  }

  // ---------- One direction of one connection ----------

  /** Which ends of a direction are armed: POLLIN at the source, POLLOUT at the destination. */
  datatype Cell = Cell(src: bool, dst: bool)

  /** The ends reported ready in one round */
  datatype Report = Report(src: bool, dst: bool)

  const ARMED := Cell(true, true)

  predicate Ready(c: Cell, r: Report) {
    (!c.src || r.src) && (!c.dst || r.dst)
  }

  function NextCell(c: Cell, r: Report): Cell {
    if Ready(c, r) then ARMED else Cell(c.src && !r.src, c.dst && !r.dst)
  }

  function CellAfter(reports: seq<Report>): Cell {
    if reports == [] then ARMED else NextCell(CellAfter(reports[..|reports| - 1]), reports[|reports| - 1])
  }

  /** The last of these rounds makes a splice. */
  predicate Splices(reports: seq<Report>)
    requires reports != []
  {
    Ready(CellAfter(reports[..|reports| - 1]), reports[|reports| - 1])
  }

  /** The number of rounds up to and including the last splice */
  function LastSplice(reports: seq<Report>): (k: nat)
    ensures k <= |reports|
  {
    if reports == [] then 0
    else if Splices(reports) then |reports|
    else LastSplice(reports[..|reports| - 1])
  }

  /** An end is disarmed exactly when it was reported since the last splice, and never both ends at once. */
  lemma {:induction false} ArmedExactly(reports: seq<Report>)
    ensures var c, k := CellAfter(reports), LastSplice(reports);
            && (c.src <==> forall i :: k <= i < |reports| ==> !reports[i].src)
            && (c.dst <==> forall i :: k <= i < |reports| ==> !reports[i].dst)
            && (c.src || c.dst)
  {
    if reports == [] {
    } else {
      ArmedExactly(reports[..|reports| - 1]);
    }
  }

  /** A splice is made exactly when both ends were reported since the last one. */
  lemma SpliceExactly(reports: seq<Report>)
    requires reports != []
    ensures var k := LastSplice(reports[..|reports| - 1]);
            Splices(reports) <==>
            && (exists i :: k <= i < |reports| && reports[i].src)
            && (exists j :: k <= j < |reports| && reports[j].dst)
  {
    var n := |reports| - 1;
    var k := LastSplice(reports[..n]);
    ArmedExactly(reports[..n]);
    assert forall i :: k <= i < n ==> reports[..n][i] == reports[i];
  }

  /** Round `j` makes a splice. */
  predicate SplicesAt(reports: seq<Report>, j: nat)
    requires j < |reports|
  {
    Splices(reports[..j + 1])
  }

  /** The last splice is one, and there is none after it. */
  lemma {:induction false} LastSpliceExactly(reports: seq<Report>, i: nat)
    requires i <= |reports|
    ensures var k := LastSplice(reports[..i]);
            && (k > 0 ==> SplicesAt(reports, k - 1))
            && forall j :: k <= j < i ==> !SplicesAt(reports, j)
  {
    if i == 0 {
    } else {
      assert reports[..i][..i - 1] == reports[..i - 1];
      LastSpliceExactly(reports, i - 1);
    }
  }

  /** So a round splices exactly when both ends were reported in rounds after which there was no splice before it. */
  lemma SpliceWindow(reports: seq<Report>, column: seq<bool>, i: nat)
    requires i < |column| <= |reports| && forall j :: 0 <= j < |column| ==> column[j] == SplicesAt(reports, j)
    ensures column[i] <==>
            exists a, b :: 0 <= a <= i && 0 <= b <= i && reports[a].src && reports[b].dst &&
                           forall j :: 0 <= j < i && (a <= j || b <= j) ==> !column[j]
  {
    var all := reports[..i + 1];
    var k := LastSplice(reports[..i]);
    assert all[..|all| - 1] == reports[..i];
    SpliceExactly(all);
    LastSpliceExactly(reports, i);
    if a, b :| 0 <= a <= i && 0 <= b <= i && reports[a].src && reports[b].dst &&
               forall j :: 0 <= j < i && (a <= j || b <= j) ==> !column[j]
    {
      assert k > 0 ==> column[k - 1];
      assert k <= a && k <= b;
      assert all[a].src && all[b].dst;
    }
    if column[i] {
      var a :| k <= a < |all| && all[a].src;
      var b :| k <= b < |all| && all[b].dst;
      assert reports[a].src && reports[b].dst;
    }
  }

  // ---------- All connections ----------

  datatype Connection = Connection(inward: Cell, outward: Cell)

  const FRESH := Connection(ARMED, ARMED)

  /** Socket to `pipe_in` */
  function InReport(revents: seq<Revents>, k: nat): Report
    requires 3 * k + 1 < |revents|
  {
    Report(revents[3 * k].pollIn, revents[3 * k + 1].pollOut)
  }

  /** `pipe_out` to socket */
  function OutReport(revents: seq<Revents>, k: nat): Report
    requires 3 * k + 2 < |revents|
  {
    Report(revents[3 * k + 2].pollIn, revents[3 * k].pollOut)
  }

  function Next(c: Connection, revents: seq<Revents>, k: nat): Connection
    requires 3 * k + 2 < |revents|
  {
    Connection(NextCell(c.inward, InReport(revents, k)), NextCell(c.outward, OutReport(revents, k)))
  }

  function Spliced(c: Connection, revents: seq<Revents>, k: nat): (bool, bool)
    requires 3 * k + 2 < |revents|
  {
    (Ready(c.inward, InReport(revents, k)), Ready(c.outward, OutReport(revents, k)))
  }

  /** A connection ends when a splice on it hits the end of file or any of its descriptors fails. */
  predicate Closes(c: Connection, poll: Poll, k: nat)
    requires 3 * k + 2 < |poll.revents| && k < |poll.eof|
  {
    var s := Spliced(c, poll.revents, k);
    || (s.0 && poll.eof[k].0) || (s.1 && poll.eof[k].1)
    || poll.revents[3 * k].errHup || poll.revents[3 * k + 1].errHup || poll.revents[3 * k + 2].errHup
  }

  /** The bits of one connection's three descriptors: the socket, `pipe_in` and `pipe_out` */
  function SockEvents(c: Connection): Events {
    Events(c.inward.src, c.outward.dst)
  }

  function PipeInEvents(c: Connection): Events {
    Events(false, c.inward.dst)
  }

  function PipeOutEvents(c: Connection): Events {
    Events(c.outward.src, false)
  }

  /** The event bits stand for these connections; the listening socket comes last. */
  ghost predicate Represents(fds: seq<Events>, conns: seq<Connection>) {
    && |fds| == 3 * |conns| + 1
    && fds[3 * |conns|] == Events(true, false)
    && forall k {:trigger conns[k]} :: 0 <= k < |conns| ==>
         fds[3 * k] == SockEvents(conns[k]) && fds[3 * k + 1] == PipeInEvents(conns[k]) &&
         fds[3 * k + 2] == PipeOutEvents(conns[k])
  }

  function Cleared(e: Events, r: Revents): Events {
    Events(e.pollIn && !r.pollIn, e.pollOut && !r.pollOut)
  }

  method ClearReported(fds: array<Events>, revents: seq<Revents>)
    requires fds.Length == |revents| > 0
    modifies fds
    ensures forall i :: 0 <= i < fds.Length - 1 ==> fds[i] == Cleared(old(fds[i]), revents[i])
    ensures fds[fds.Length - 1] == old(fds[fds.Length - 1])
  {
    for i := 0 to fds.Length - 1
      invariant forall j :: 0 <= j < i ==> fds[j] == Cleared(old(fds[j]), revents[j])
      invariant forall j :: i <= j < fds.Length ==> fds[j] == old(fds[j])
    {
      if revents[i].pollIn {
        fds[i] := fds[i].(pollIn := false);
      }
      if revents[i].pollOut {
        fds[i] := fds[i].(pollOut := false);
      }
    }
  }

  /** One entry of the direction map: it touches one bit of either descriptor and nothing else. */
  method Direction(fds: array<Events>, revents: seq<Revents>, src: nat, dst: nat, eof: bool)
    returns (spliced: bool, closed: bool)
    requires fds.Length == |revents| && src < fds.Length && dst < fds.Length && src != dst
    modifies fds
    ensures spliced == ((!old(fds[src]).pollIn || revents[src].pollIn) && (!old(fds[dst]).pollOut || revents[dst].pollOut))
    ensures closed == ((spliced && eof) || revents[src].errHup || revents[dst].errHup)
    ensures fds[src] == old(fds[src]).(pollIn := spliced || old(fds[src]).pollIn)
    ensures fds[dst] == old(fds[dst]).(pollOut := spliced || old(fds[dst]).pollOut)
    ensures forall i :: 0 <= i < fds.Length && i != src && i != dst ==> fds[i] == old(fds[i])
  {
    var inReady := !fds[src].pollIn || revents[src].pollIn;
    var outReady := !fds[dst].pollOut || revents[dst].pollOut;
    spliced, closed := false, false;
    if inReady && outReady {
      spliced := true;
      if eof {
        closed := true;
      }
      fds[src] := fds[src].(pollIn := true);
      fds[dst] := fds[dst].(pollOut := true);
    }
    if revents[src].errHup || revents[dst].errHup {
      closed := true;
    }
  }

  /** Both directions of connection `k`, once the reported bits are cleared */
  method Serve(fds: array<Events>, k: nat, poll: Poll, ghost c: Connection)
    returns (spliced: (bool, bool), closed: bool)
    requires 3 * k + 2 < fds.Length == |poll.revents| && k < |poll.eof|
    requires fds[3 * k] == Cleared(SockEvents(c), poll.revents[3 * k])
    requires fds[3 * k + 1] == Cleared(PipeInEvents(c), poll.revents[3 * k + 1])
    requires fds[3 * k + 2] == Cleared(PipeOutEvents(c), poll.revents[3 * k + 2])
    modifies fds
    ensures spliced == Spliced(c, poll.revents, k) && closed == Closes(c, poll, k)
    ensures var d := Next(c, poll.revents, k);
            && fds[3 * k] == SockEvents(d) && fds[3 * k + 1] == PipeInEvents(d) && fds[3 * k + 2] == PipeOutEvents(d)
    ensures forall i :: 0 <= i < fds.Length && !(3 * k <= i < 3 * k + 3) ==> fds[i] == old(fds[i])
  {
    var s0, c0 := Direction(fds, poll.revents, 3 * k, 3 * k + 1, poll.eof[k].0);
    var s1, c1 := Direction(fds, poll.revents, 3 * k + 2, 3 * k, poll.eof[k].1);
    return (s0, s1), c0 || c1;
  }

  /** The part of a round after `poll`: bits cleared, ready directions spliced and armed again. */
  method Round(fds: array<Events>, n: nat, poll: Poll, ghost conns: seq<Connection>, ghost next: seq<Connection>)
    returns (spliced: seq<(bool, bool)>, closed: seq<bool>)
    requires Fits(poll, n) && |conns| == |next| == n && Represents(fds[..], conns)
    requires forall k {:trigger next[k]} :: 0 <= k < n ==> next[k] == Next(conns[k], poll.revents, k)
    modifies fds
    ensures |spliced| == |closed| == n
    ensures forall k :: 0 <= k < n ==> spliced[k] == Spliced(conns[k], poll.revents, k)
    ensures forall k :: 0 <= k < n ==> closed[k] == Closes(conns[k], poll, k)
    ensures Represents(fds[..], next)
  {
    ClearReported(fds, poll.revents);
    spliced, closed := [], [];
    for k := 0 to n
      invariant |spliced| == |closed| == k
      invariant forall j :: 0 <= j < k ==> spliced[j] == Spliced(conns[j], poll.revents, j)
      invariant forall j :: 0 <= j < k ==> closed[j] == Closes(conns[j], poll, j)
      invariant forall j {:trigger next[j]} :: 0 <= j < k ==>
                  fds[3 * j] == SockEvents(next[j]) && fds[3 * j + 1] == PipeInEvents(next[j]) &&
                  fds[3 * j + 2] == PipeOutEvents(next[j])
      invariant forall j {:trigger conns[j]} :: k <= j < n ==>
                  fds[3 * j] == Cleared(SockEvents(conns[j]), poll.revents[3 * j]) &&
                  fds[3 * j + 1] == Cleared(PipeInEvents(conns[j]), poll.revents[3 * j + 1]) &&
                  fds[3 * j + 2] == Cleared(PipeOutEvents(conns[j]), poll.revents[3 * j + 2])
      invariant fds[3 * n] == Events(true, false)
    {
      var s, c := Serve(fds, k, poll, conns[k]);
      assert next[k] == Next(conns[k], poll.revents, k);
      spliced, closed := spliced + [s], closed + [c];
    }
  }

  function NextAll(conns: seq<Connection>, revents: seq<Revents>): (r: seq<Connection>)
    requires |revents| == 3 * |conns| + 1
    ensures |r| == |conns|
  {
    seq(|conns|, k requires 0 <= k < |conns| => Next(conns[k], revents, k))
  }

  // ---------- Runs ----------

  predicate AllFit(polls: seq<Poll>, n: nat) {
    forall i :: 0 <= i < |polls| ==> Fits(polls[i], n)
  }

  /** What the rounds report for the two directions of connection `k` */
  function InReports(polls: seq<Poll>, k: nat, n: nat): (r: seq<Report>)
    requires AllFit(polls, n) && k < n
    ensures |r| == |polls|
  {
    seq(|polls|, i requires 0 <= i < |polls| => assert Fits(polls[i], n); InReport(polls[i].revents, k))
  }

  function OutReports(polls: seq<Poll>, k: nat, n: nat): (r: seq<Report>)
    requires AllFit(polls, n) && k < n
    ensures |r| == |polls|
  {
    seq(|polls|, i requires 0 <= i < |polls| => assert Fits(polls[i], n); OutReport(polls[i].revents, k))
  }

  /** Connection `k` after the first `i` rounds */
  function ConnectionAfter(polls: seq<Poll>, i: nat, k: nat, n: nat): Connection
    requires AllFit(polls, n) && i <= |polls| && k < n
  {
    Connection(CellAfter(InReports(polls, k, n)[..i]), CellAfter(OutReports(polls, k, n)[..i]))
  }

  function ConnectionsAfter(polls: seq<Poll>, i: nat, n: nat): (r: seq<Connection>)
    requires AllFit(polls, n) && i <= |polls|
    ensures |r| == n
  {
    seq(n, k requires 0 <= k < n => ConnectionAfter(polls, i, k, n))
  }

  /** Whether round `i` splices, either way */
  function SplicesIn(polls: seq<Poll>, i: nat, n: nat): (r: seq<(bool, bool)>)
    requires AllFit(polls, n) && i < |polls|
    ensures |r| == n
  {
    seq(n, k requires 0 <= k < n =>
      (Splices(InReports(polls, k, n)[..i + 1]), Splices(OutReports(polls, k, n)[..i + 1])))
  }

  /** Which connections round `i` closes */
  function ClosesIn(polls: seq<Poll>, i: nat, n: nat): (r: seq<bool>)
    requires AllFit(polls, n) && i < |polls|
    ensures |r| == n
  {
    seq(n, k requires 0 <= k < n =>
      var poll, s := polls[i], SplicesIn(polls, i, n)[k];
      assert Fits(poll, n);
      || (s.0 && poll.eof[k].0) || (s.1 && poll.eof[k].1)
      || poll.revents[3 * k].errHup || poll.revents[3 * k + 1].errHup || poll.revents[3 * k + 2].errHup)
  }

  lemma RoundOfRun(polls: seq<Poll>, i: nat, n: nat)
    requires AllFit(polls, n) && i < |polls|
    ensures Fits(polls[i], n)
    ensures NextAll(ConnectionsAfter(polls, i, n), polls[i].revents) == ConnectionsAfter(polls, i + 1, n)
    ensures forall k :: 0 <= k < n ==>
              Spliced(ConnectionAfter(polls, i, k, n), polls[i].revents, k) == SplicesIn(polls, i, n)[k]
    ensures forall k :: 0 <= k < n ==>
              Closes(ConnectionAfter(polls, i, k, n), polls[i], k) == ClosesIn(polls, i, n)[k]
  {
    assert Fits(polls[i], n);
    forall k | 0 <= k < n
      ensures NextAll(ConnectionsAfter(polls, i, n), polls[i].revents)[k] == ConnectionAfter(polls, i + 1, k, n)
      ensures Spliced(ConnectionAfter(polls, i, k, n), polls[i].revents, k) == SplicesIn(polls, i, n)[k]
      ensures Closes(ConnectionAfter(polls, i, k, n), polls[i], k) == ClosesIn(polls, i, n)[k]
    {
      var ins, outs := InReports(polls, k, n), OutReports(polls, k, n);
      assert ins[..i + 1][..i] == ins[..i] && outs[..i + 1][..i] == outs[..i];
    }
  }

  /** At every `poll` call either direction of every connection has an end armed. */
  lemma NoLostReadiness(polls: seq<Poll>, i: nat, k: nat, n: nat)
    requires AllFit(polls, n) && i <= |polls| && k < n
    ensures var c := ConnectionAfter(polls, i, k, n);
            (c.inward.src || c.inward.dst) && (c.outward.src || c.outward.dst)
  {
    ArmedExactly(InReports(polls, k, n)[..i]);
    ArmedExactly(OutReports(polls, k, n)[..i]);
  }

  // ---------- Compaction ----------

  /** `erase(remove(..., pipemap_t{}))` */
  function Compact(pipes: seq<Pipe>): seq<Pipe> {
    if pipes == [] then []
    else if IsZero(pipes[0]) then Compact(pipes[1..])
    else [pipes[0]] + Compact(pipes[1..])
  }

  /** Only entries without any descriptor are removed, and all of them. */
  lemma {:induction false} CompactExactly(a: seq<Pipe>, p: Pipe, b: seq<Pipe>)
    ensures Compact([]) == []
    ensures Compact(a + [p] + b) ==
            if p.sockFd == 0 && p.pipeIn == 0 && p.pipeOut == 0 then Compact(a) + Compact(b)
            else Compact(a) + [p] + Compact(b)
  {
    var all := a + [p] + b;
    if a == [] {
      assert all[0] == p && all[1..] == b;
    } else {
      CompactExactly(a[1..], p, b);
      assert all[0] == a[0] && all[1..] == a[1..] + [p] + b;
    }
  }

  function Zeroed(pipes: seq<Pipe>, closed: seq<bool>): (r: seq<Pipe>)
    requires |pipes| == |closed|
    ensures |r| == |pipes|
    ensures forall k :: 0 <= k < |r| ==> r[k] == if closed[k] then Pipe(0, 0, 0, 0) else pipes[k]
  {
    seq(|pipes|, k requires 0 <= k < |pipes| => if closed[k] then ZERO_PIPE else pipes[k])
  }

  /** The connections not closed, in order */
  function Open(pipes: seq<Pipe>, closed: seq<bool>): seq<Pipe>
    requires |pipes| == |closed|
  {
    if pipes == [] then []
    else if closed[0] then Open(pipes[1..], closed[1..])
    else [pipes[0]] + Open(pipes[1..], closed[1..])
  }

  lemma {:induction false} OpenExactly(pipes: seq<Pipe>, closed: seq<bool>, p: Pipe, c: bool)
    requires |pipes| == |closed|
    ensures Open([], []) == []
    ensures Open(pipes + [p], closed + [c]) == Open(pipes, closed) + if c then [] else [p]
  {
    var all, flags := pipes + [p], closed + [c];
    if pipes == [] {
      assert all == [p] && flags == [c] && all[1..] == [] && flags[1..] == [];
    } else {
      OpenExactly(pipes[1..], closed[1..], p, c);
      assert all[1..] == pipes[1..] + [p] && flags[1..] == closed[1..] + [c];
    }
  }

  /** Compaction keeps exactly the open connections, unless one of them is all zeros itself. */
  lemma {:induction false} CompactionExact(pipes: seq<Pipe>, closed: seq<bool>)
    requires |pipes| == |closed|
    ensures |Compact(Zeroed(pipes, closed))| <= |Open(pipes, closed)|
    ensures Compact(Zeroed(pipes, closed)) == Open(pipes, closed)
       <==> forall k :: 0 <= k < |pipes| && !closed[k] ==> !IsZero(pipes[k])
    ensures |Compact(Zeroed(pipes, closed))| == |Open(pipes, closed)|
       ==> forall k :: 0 <= k < |pipes| && !closed[k] ==> !IsZero(pipes[k])
  {
    if pipes == [] {
    } else {
      var z := Zeroed(pipes, closed);
      CompactionExact(pipes[1..], closed[1..]);
      assert z[1..] == Zeroed(pipes[1..], closed[1..]);
      assert forall k :: 1 <= k < |pipes| ==> pipes[k] == pipes[1..][k - 1] && closed[k] == closed[1..][k - 1];
    }
  }

  /** Why the loop ends: a signal, a new connection, a failing `poll`, or connections being closed */
  datatype End = Signal | Accept | PollFailed | Hangup(closed: seq<bool>)

  /** The splices of the first `m` rounds */
  function SplicesOf(polls: seq<Poll>, n: nat, m: nat): seq<seq<(bool, bool)>>
    requires AllFit(polls, n) && m <= |polls|
  {
    if m == 0 then [] else SplicesOf(polls, n, m - 1) + [SplicesIn(polls, m - 1, n)]
  }

  predicate Quiet(polls: seq<Poll>, i: nat, n: nat)
    requires AllFit(polls, n) && i < |polls|
  {
    true !in ClosesIn(polls, i, n)
  }

  /** No round before the last of `m` closes a connection, and `end` is the reason to go no further. */
  ghost predicate RanUntil(polls: seq<Poll>, n: nat, m: nat, end: End)
    requires AllFit(polls, n)
  {
    && m <= |polls|
    && (forall i :: 0 <= i < m ==> !Ends(polls[i]))
    && (forall i :: 0 <= i < m - 1 ==> Quiet(polls, i, n))
    && (if end.Hangup? then m > 0 && end.closed == ClosesIn(polls, m - 1, n) && true in end.closed
        else (m > 0 ==> Quiet(polls, m - 1, n)) &&
             if m == |polls| then end.PollFailed?
             else Ends(polls[m]) && end == if polls[m].stop then Signal else Accept)
  }

  /**
   * The rounds that a call runs on `polls`, after which `poll` fails: `log` lists the splices they make, all
   * but the last close no connection, and what comes next is the reason why the loop ends.
   */
  ghost predicate Ran(polls: seq<Poll>, n: nat, log: seq<seq<(bool, bool)>>, end: End)
    requires AllFit(polls, n)
  {
    && RanUntil(polls, n, |log|, end)
    && log == SplicesOf(polls, n, |log|)
  }

  lemma {:induction false} LogLength(polls: seq<Poll>, n: nat, m: nat)
    requires AllFit(polls, n) && m <= |polls|
    ensures |SplicesOf(polls, n, m)| == m
  {
    if m == 0 {
    } else {
      LogLength(polls, n, m - 1);
    }
  }

  lemma {:induction false} LogEntry(polls: seq<Poll>, n: nat, m: nat, j: nat)
    requires AllFit(polls, n) && j < m <= |polls|
    ensures |SplicesOf(polls, n, m)| == m && SplicesOf(polls, n, m)[j] == SplicesIn(polls, j, n)
  {
    if j == m - 1 {
      LogLength(polls, n, m - 1);
    } else {
      LogEntry(polls, n, m - 1, j);
    }
  }

  lemma LogColumns(polls: seq<Poll>, n: nat, log: seq<seq<(bool, bool)>>, k: nat)
    returns (inward: seq<bool>, outward: seq<bool>)
    requires AllFit(polls, n) && |log| <= |polls| && log == SplicesOf(polls, n, |log|) && k < n
    ensures forall j :: 0 <= j < |log| ==> |log[j]| == n
    ensures |inward| == |outward| == |log|
    ensures forall j :: 0 <= j < |log| ==> log[j][k] == (inward[j], outward[j])
    ensures forall j :: 0 <= j < |log| ==> inward[j] == SplicesAt(InReports(polls, k, n), j)
    ensures forall j :: 0 <= j < |log| ==> outward[j] == SplicesAt(OutReports(polls, k, n), j)
  {
    var ins, outs := InReports(polls, k, n), OutReports(polls, k, n);
    inward := seq(|log|, j requires 0 <= j < |log| => SplicesAt(ins, j));
    outward := seq(|log|, j requires 0 <= j < |log| => SplicesAt(outs, j));
    forall j | 0 <= j < |log|
      ensures |log[j]| == n && log[j][k] == (inward[j], outward[j])
    {
      LogEntry(polls, n, |log|, j);
    }
  }

  lemma ReportsExactly(polls: seq<Poll>, n: nat, k: nat)
    requires AllFit(polls, n) && k < n
    ensures forall j :: 0 <= j < |polls| ==> |polls[j].revents| == 3 * n + 1
    ensures forall j :: 0 <= j < |polls| ==>
              InReports(polls, k, n)[j] == Report(polls[j].revents[3 * k].pollIn, polls[j].revents[3 * k + 1].pollOut)
    ensures forall j :: 0 <= j < |polls| ==>
              OutReports(polls, k, n)[j] == Report(polls[j].revents[3 * k + 2].pollIn, polls[j].revents[3 * k].pollOut)
  {
    assert forall j :: 0 <= j < |polls| ==> Fits(polls[j], n);
  }

  lemma InwardColumn(polls: seq<Poll>, n: nat, log: seq<seq<(bool, bool)>>, i: nat, k: nat, reports: seq<Report>,
                     column: seq<bool>)
    requires |reports| == |polls| && forall j :: 0 <= j < |polls| ==> |polls[j].revents| == 3 * n + 1
    requires i < |log| == |column| <= |polls| && k < n && forall j :: 0 <= j < |log| ==> |log[j]| == n
    requires forall j :: 0 <= j < |polls| ==>
               reports[j] == Report(polls[j].revents[3 * k].pollIn, polls[j].revents[3 * k + 1].pollOut)
    requires forall j :: 0 <= j < |log| ==> column[j] == log[j][k].0
    requires column[i] <==>
             exists a, b :: 0 <= a <= i && 0 <= b <= i && reports[a].src && reports[b].dst &&
                            forall j :: 0 <= j < i && (a <= j || b <= j) ==> !column[j]
    ensures log[i][k].0 <==>
            exists a, b :: 0 <= a <= i && 0 <= b <= i &&
                           polls[a].revents[3 * k].pollIn && polls[b].revents[3 * k + 1].pollOut &&
                           forall j :: 0 <= j < i && (a <= j || b <= j) ==> !log[j][k].0
  {
    if column[i] {
      var a, b :| 0 <= a <= i && 0 <= b <= i && reports[a].src && reports[b].dst &&
                  forall j :: 0 <= j < i && (a <= j || b <= j) ==> !column[j];
      assert polls[a].revents[3 * k].pollIn && polls[b].revents[3 * k + 1].pollOut;
    }
    if a, b :| 0 <= a <= i && 0 <= b <= i &&
               polls[a].revents[3 * k].pollIn && polls[b].revents[3 * k + 1].pollOut &&
               forall j :: 0 <= j < i && (a <= j || b <= j) ==> !log[j][k].0
    {
      assert reports[a].src && reports[b].dst;
      assert forall j :: 0 <= j < i && (a <= j || b <= j) ==> !column[j];
    }
  }

  /**
   * What the log says of the direction from the socket of connection `k` to its `pipe_in`: there is a splice exactly
   * when POLLIN of the one and POLLOUT of the other were both reported since the last splice.
   */
  lemma InwardExactly(polls: seq<Poll>, n: nat, log: seq<seq<(bool, bool)>>, i: nat, k: nat)
    requires AllFit(polls, n) && |log| <= |polls| && log == SplicesOf(polls, n, |log|)
    requires i < |log| && k < n
    ensures forall j :: 0 <= j < |polls| ==> |polls[j].revents| == 3 * n + 1
    ensures forall j :: 0 <= j < |log| ==> |log[j]| == n
    ensures log[i][k].0 <==>
            exists a, b :: 0 <= a <= i && 0 <= b <= i &&
                           polls[a].revents[3 * k].pollIn && polls[b].revents[3 * k + 1].pollOut &&
                           forall j :: 0 <= j < i && (a <= j || b <= j) ==> !log[j][k].0
  {
    var inward, outward := LogColumns(polls, n, log, k);
    var reports := InReports(polls, k, n);
    ReportsExactly(polls, n, k);
    SpliceWindow(reports, inward, i);
    InwardColumn(polls, n, log, i, k, reports, inward);
  }

  lemma OutwardColumn(polls: seq<Poll>, n: nat, log: seq<seq<(bool, bool)>>, i: nat, k: nat, reports: seq<Report>,
                     column: seq<bool>)
    requires |reports| == |polls| && forall j :: 0 <= j < |polls| ==> |polls[j].revents| == 3 * n + 1
    requires i < |log| == |column| <= |polls| && k < n && forall j :: 0 <= j < |log| ==> |log[j]| == n
    requires forall j :: 0 <= j < |polls| ==>
               reports[j] == Report(polls[j].revents[3 * k + 2].pollIn, polls[j].revents[3 * k].pollOut)
    requires forall j :: 0 <= j < |log| ==> column[j] == log[j][k].1
    requires column[i] <==>
             exists a, b :: 0 <= a <= i && 0 <= b <= i && reports[a].src && reports[b].dst &&
                            forall j :: 0 <= j < i && (a <= j || b <= j) ==> !column[j]
    ensures log[i][k].1 <==>
            exists a, b :: 0 <= a <= i && 0 <= b <= i &&
                           polls[a].revents[3 * k + 2].pollIn && polls[b].revents[3 * k].pollOut &&
                           forall j :: 0 <= j < i && (a <= j || b <= j) ==> !log[j][k].1
  {
    if column[i] {
      var a, b :| 0 <= a <= i && 0 <= b <= i && reports[a].src && reports[b].dst &&
                  forall j :: 0 <= j < i && (a <= j || b <= j) ==> !column[j];
      assert polls[a].revents[3 * k + 2].pollIn && polls[b].revents[3 * k].pollOut;
    }
    if a, b :| 0 <= a <= i && 0 <= b <= i &&
               polls[a].revents[3 * k + 2].pollIn && polls[b].revents[3 * k].pollOut &&
               forall j :: 0 <= j < i && (a <= j || b <= j) ==> !log[j][k].1
    {
      assert reports[a].src && reports[b].dst;
      assert forall j :: 0 <= j < i && (a <= j || b <= j) ==> !column[j];
    }
  }

  /** The same from `pipe_out` to the socket */
  lemma OutwardExactly(polls: seq<Poll>, n: nat, log: seq<seq<(bool, bool)>>, i: nat, k: nat)
    requires AllFit(polls, n) && |log| <= |polls| && log == SplicesOf(polls, n, |log|)
    requires i < |log| && k < n
    ensures forall j :: 0 <= j < |polls| ==> |polls[j].revents| == 3 * n + 1
    ensures forall j :: 0 <= j < |log| ==> |log[j]| == n
    ensures log[i][k].1 <==>
            exists a, b :: 0 <= a <= i && 0 <= b <= i &&
                           polls[a].revents[3 * k + 2].pollIn && polls[b].revents[3 * k].pollOut &&
                           forall j :: 0 <= j < i && (a <= j || b <= j) ==> !log[j][k].1
  {
    var inward, outward := LogColumns(polls, n, log, k);
    var reports := OutReports(polls, k, n);
    ReportsExactly(polls, n, k);
    SpliceWindow(reports, outward, i);
    OutwardColumn(polls, n, log, i, k, reports, outward);
  }

  /** How a run continues at round `i`: how many rounds there are in all, and how it ends. */
  function Ending(polls: seq<Poll>, n: nat, i: nat): (nat, End)
    requires AllFit(polls, n) && i <= |polls|
    decreases |polls| - i
  {
    if i == |polls| then (i, PollFailed)
    else if polls[i].stop then (i, Signal)
    else if NewConnection(polls[i]) then (i, Accept)
    else
      var closed := ClosesIn(polls, i, n);
      if true in closed then (i + 1, Hangup(closed)) else Ending(polls, n, i + 1)
  }

  lemma {:induction false} EndingRan(polls: seq<Poll>, n: nat, i: nat)
    requires AllFit(polls, n) && i <= |polls|
    requires forall j :: 0 <= j < i ==> !Ends(polls[j]) && Quiet(polls, j, n)
    ensures var (m, end) := Ending(polls, n, i); RanUntil(polls, n, m, end)
    decreases |polls| - i
  {
    if i >= |polls| || Ends(polls[i]) || !Quiet(polls, i, n) {
    } else {
      EndingRan(polls, n, i + 1);
    }
  }

  /** Nothing on the listening socket, and no signal, in any round that is run */
  lemma RoundsExactly(polls: seq<Poll>, n: nat, log: seq<seq<(bool, bool)>>, end: End)
    requires AllFit(polls, n) && Ran(polls, n, log, end)
    ensures |log| <= |polls| && forall j :: 0 <= j < |polls| ==> |polls[j].revents| == 3 * n + 1
    ensures forall i :: 0 <= i < |log| ==>
              !polls[i].stop && polls[i].revents[3 * n] == Revents(false, false, false, false)
  {
    forall i | 0 <= i < |polls|
      ensures |polls[i].revents| == 3 * n + 1
    {
      assert Fits(polls[i], n);
    }
    assert forall i :: 0 <= i < |log| ==> !Ends(polls[i]);
  }

  lemma ClosesExactly(polls: seq<Poll>, n: nat, m: nat, i: nat, k: nat)
    requires AllFit(polls, n) && i < m <= |polls| && k < n
    ensures |SplicesOf(polls, n, m)| == m
    ensures var poll, s := polls[i], SplicesOf(polls, n, m)[i];
            && |poll.revents| == 3 * n + 1 && |poll.eof| == n && |s| == n
            && (ClosesIn(polls, i, n)[k] <==>
                || (s[k].0 && poll.eof[k].0) || (s[k].1 && poll.eof[k].1)
                || poll.revents[3 * k].errHup || poll.revents[3 * k + 1].errHup || poll.revents[3 * k + 2].errHup)
  {
    LogEntry(polls, n, m, i);
    assert Fits(polls[i], n);
  }

  /** A connection is closed in the last round only, and then exactly by an end of file or a failing descriptor. */
  lemma ClosedExactly(polls: seq<Poll>, n: nat, log: seq<seq<(bool, bool)>>, end: End, i: nat, k: nat)
    requires AllFit(polls, n) && Ran(polls, n, log, end) && i < |log| && k < n
    ensures |log| <= |polls| && |log[i]| == |polls[i].eof| == n && |polls[i].revents| == 3 * n + 1
    ensures end.Hangup? ==> |end.closed| == n && true in end.closed
    ensures var poll := polls[i];
            (end.Hangup? && i == |log| - 1 && end.closed[k]) <==>
            || (log[i][k].0 && poll.eof[k].0) || (log[i][k].1 && poll.eof[k].1)
            || poll.revents[3 * k].errHup || poll.revents[3 * k + 1].errHup || poll.revents[3 * k + 2].errHup
  {
    ClosesExactly(polls, n, |log|, i, k);
    assert end.Hangup? && i == |log| - 1 ==> end.closed == ClosesIn(polls, i, n);
    if !(end.Hangup? && i == |log| - 1) {
      assert Quiet(polls, i, n) && !ClosesIn(polls, i, n)[k];
    }
  }

  /** Why the loop ends, in terms of the round that would come next */
  lemma EndExactly(polls: seq<Poll>, n: nat, log: seq<seq<(bool, bool)>>, end: End)
    requires AllFit(polls, n) && Ran(polls, n, log, end)
    ensures |log| <= |polls| && forall j :: 0 <= j < |polls| ==> |polls[j].revents| == 3 * n + 1
    ensures end.Hangup? ==> |log| > 0
    ensures !end.Hangup? ==> (end.PollFailed? <==> |log| == |polls|)
    ensures !end.Hangup? && |log| < |polls| ==>
              var poll := polls[|log|];
              && (end.Signal? <==> poll.stop)
              && (end.Accept? <==> !poll.stop && poll.revents[3 * n] != Revents(false, false, false, false))
  {
    RoundsExactly(polls, n, log, end);
  }

  /** Round `i` of a run */
  method RunRound(fds: array<Events>, polls: seq<Poll>, i: nat, n: nat)
    returns (spliced: seq<(bool, bool)>, closed: seq<bool>)
    requires AllFit(polls, n) && i < |polls| && Represents(fds[..], ConnectionsAfter(polls, i, n))
    modifies fds
    ensures spliced == SplicesIn(polls, i, n) && closed == ClosesIn(polls, i, n)
    ensures Represents(fds[..], ConnectionsAfter(polls, i + 1, n))
  {
    RoundOfRun(polls, i, n);
    spliced, closed := Round(fds, n, polls[i], ConnectionsAfter(polls, i, n), ConnectionsAfter(polls, i + 1, n));
  }

  method InitialEvents(fds: array<Events>, n: nat)
    requires fds.Length == 3 * n + 1
    modifies fds
    ensures Represents(fds[..], seq(n, _ => FRESH))
  {
    ghost var conns := seq(n, _ => FRESH);
    for k := 0 to n
      invariant forall j {:trigger conns[j]} :: 0 <= j < k ==>
                  fds[3 * j] == SockEvents(conns[j]) && fds[3 * j + 1] == PipeInEvents(conns[j]) &&
                  fds[3 * j + 2] == PipeOutEvents(conns[j])
    {
      fds[3 * k] := Events(true, true);
      fds[3 * k + 1] := Events(false, true);
      fds[3 * k + 2] := Events(true, false);
    }
    fds[3 * n] := Events(true, false);
  }

  method Rounds(polls: seq<Poll>, n: nat) returns (log: seq<seq<(bool, bool)>>, end: End)
    requires AllFit(polls, n)
    ensures (|log|, end) == Ending(polls, n, 0)
    ensures |log| <= |polls| && log == SplicesOf(polls, n, |log|)
  {
    var fds := new Events[3 * n + 1];
    InitialEvents(fds, n);
    log := [];
    assert ConnectionsAfter(polls, 0, n) == seq(n, _ => FRESH);
    for i := 0 to |polls|
      invariant |log| == i && fresh(fds)
      invariant Represents(fds[..], ConnectionsAfter(polls, i, n))
      invariant log == SplicesOf(polls, n, i)
      invariant Ending(polls, n, i) == Ending(polls, n, 0)
    {
      if polls[i].stop {
        return log, Signal;
      }
      if NewConnection(polls[i]) {
        return log, Accept;
      }
      var spliced, closed := RunRound(fds, polls, i, n);
      log := log + [spliced];
      if true in closed {
        return log, Hangup(closed);
      }
    }
    return log, PollFailed;
  }

  class Nsjail {
    var pipes: seq<Pipe>

    constructor (pipes: seq<Pipe>)
      ensures this.pipes == pipes
    {
      this.pipes := pipes;
    }

    /** One whole call, with the log of its splices */
    method Traffic(polls: seq<Poll>)
      returns (newConnection: bool, log: seq<seq<(bool, bool)>>, end: End)
      requires AllFit(polls, |pipes|)
      modifies this
      ensures Ran(polls, |old(pipes)|, log, end)
      ensures newConnection == end.Accept?
      ensures |log| <= |polls| && forall j :: 0 <= j < |polls| ==> |polls[j].revents| == 3 * |old(pipes)| + 1
      ensures forall i :: 0 <= i < |log| ==>
                !polls[i].stop && polls[i].revents[3 * |old(pipes)|] == Revents(false, false, false, false)
      ensures newConnection <==>
              && !end.Hangup? && |log| < |polls| && !polls[|log|].stop
              && polls[|log|].revents[3 * |old(pipes)|] != Revents(false, false, false, false)
      ensures pipes == match end
                       case Signal => old(pipes)
                       case Accept => old(pipes)
                       case PollFailed => Compact(old(pipes))
                       case Hangup(closed) => Compact(Zeroed(old(pipes), closed))
    {
      log, end := Rounds(polls, |pipes|);
      EndingRan(polls, |pipes|, 0);
      RoundsExactly(polls, |pipes|, log, end);
      EndExactly(polls, |pipes|, log, end);
      newConnection := end.Accept?;
      if end.Signal? || end.Accept? {
        return;
      }
      if end.Hangup? {
        pipes := Zeroed(pipes, end.closed);
      }
      pipes := Compact(pipes);
    }
  }
}
