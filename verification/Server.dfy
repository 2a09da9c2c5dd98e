/** The server loop, with sockets and clock reduced to the events they deliver. */
module Servers {
  import opened Bytes
  import opened Store
  import opened Persistence
  import opened Commands
  import opened CommandHandlers
  import opened Restarts

  /** What one entry of `epoll_wait` turns out to be: an accepted connection, received bytes, a closed peer. */
  datatype Arrival = Connect | Data(line: string, now: int, duration: real) | Gone

  /** One round of the loop: the ready descriptors, then the clock reading for the periodic dump and whether
      its file would open. */
  datatype Round = Round(arrivals: seq<Arrival>, now: int, opens: bool)

  predicate Receivable(a: Arrival) {
    a.Data? ==> Answerable(a.line)
  }

  predicate RoundReceivable(round: Round) {
    forall i :: 0 <= i < |round.arrivals| ==> Receivable(round.arrivals[i])
  }

  function ClientChange(a: Arrival): int {
    match a
    case Connect => 1
    case Gone => -1
    case Data(_, _, _) => 0
  }

  function RoundChange(arrivals: seq<Arrival>): int {
    if arrivals == [] then 0 else RoundChange(arrivals[..|arrivals| - 1]) + ClientChange(arrivals[|arrivals| - 1])
  }

  function TotalChange(rounds: seq<Round>): int {
    if rounds == [] then 0 else TotalChange(rounds[..|rounds| - 1]) + RoundChange(rounds[|rounds| - 1].arrivals)
  }

  /** A round changes the gauge by its connections less its departures. */
  lemma {:induction false} ClientsCounted(arrivals: seq<Arrival>)
    ensures RoundChange(arrivals) + multiset(arrivals)[Gone] == multiset(arrivals)[Connect]
  {
    if arrivals == [] {
    } else {
      var n := |arrivals| - 1;
      ClientsCounted(arrivals[..n]);
      assert arrivals == arrivals[..n] + [arrivals[n]];
    }
  }

  const DUMP_INTERVAL: int := 300 * NANOSECONDS

  /** When the last periodic dump was made, after these rounds. */
  function LastDump(start: int, rounds: seq<Round>): int {
    if rounds == [] then start
    else
      var before, now := LastDump(start, rounds[..|rounds| - 1]), rounds[|rounds| - 1].now;
      if now - before >= DUMP_INTERVAL then now else before
  }

  /** The interval has passed when round i ends. */
  predicate Due(start: int, rounds: seq<Round>, i: nat)
    requires i < |rounds|
  {
    rounds[i].now - LastDump(start, rounds[..i]) >= DUMP_INTERVAL
  }

  lemma OneMoreRound(start: int, rounds: seq<Round>, i: nat)
    requires i < |rounds|
    ensures LastDump(start, rounds[..i + 1]) ==
            if Due(start, rounds, i) then rounds[i].now else LastDump(start, rounds[..i])
  {
    assert rounds[..i + 1][..i] == rounds[..i];
  }

  /** Where every due round whose file opened ended, the file was a snapshot of the state. */
  ghost predicate Snapshots(ws: seq<World>, start: int, rounds: seq<Round>, ends: seq<nat>) {
    && |ends| <= |rounds|
    && forall i :: 0 <= i < |ends| ==>
      ends[i] < |ws| &&
      (Due(start, rounds, i) && rounds[i].opens ==> ws[ends[i]].snapshot == Some(ws[ends[i]].db))
  }

  lemma LaterWorlds(ws: seq<World>, more: seq<World>, start: int, rounds: seq<Round>, ends: seq<nat>)
    requires Snapshots(ws, start, rounds, ends) && ws <= more
    ensures Snapshots(more, start, rounds, ends)
  {
  }

  lemma OneMoreEnd(ws: seq<World>, start: int, rounds: seq<Round>, ends: seq<nat>)
    requires Snapshots(ws, start, rounds, ends) && |ends| < |rounds| && ws != []
    requires Due(start, rounds, |ends|) && rounds[|ends|].opens ==>
      ws[|ws| - 1].snapshot == Some(ws[|ws| - 1].db)
    ensures Snapshots(ws, start, rounds, ends + [|ws| - 1])
  {
    hide Due;
  }

  lemma NoRounds(start: int, rounds: seq<Round>, ws: seq<World>)
    ensures LastDump(start, []) == start && Snapshots(ws, start, rounds, [])
  {
  }

  lemma NoSteps(w: World)
    ensures Steps([w], [])
  {
  }

  class Server {
    const handler: CommandHandler
    var lastDump: int
    /** The contents of `dump.my_db`. */
    var file: Option<string>
    ghost var snapshot: Option<Db>

    ghost predicate Valid()
      reads this, handler, handler.metrics, handler.metrics.parts
    {
      handler.Valid() && this !in handler.metrics.parts
    }

    ghost function Now(): World
      reads this, handler, handler.db
    {
      World(handler.db.State(), file, snapshot)
    }

    /** A new process: `main` loads the dump file, when there is one, before the server runs. */
    constructor (handler: CommandHandler, file: Option<string>, junk: Junk, now: int)
      requires handler.Valid() && handler.db.State() == EMPTY
      modifies handler.db
      ensures Valid() && Started(Now()) && handler.db.State() == Booted(file, junk)
      ensures this.handler == handler && this.file == file && lastDump == now
    {
      this.handler := handler;
      this.file := file;
      this.lastDump := now;
      this.snapshot := None;
      new;
      var loaded := handler.db.Load(file, junk);
      assert Now().db == Booted(Now().file, junk);
    }

    /** One ready descriptor; `crashed` when an exception escapes from the request. */
    method Receive(a: Arrival) returns (crashed: bool)
      requires Valid() && Receivable(a)
      modifies handler.db, handler.metrics, handler.metrics.parts
      ensures Valid() && fresh(handler.metrics.parts - old(handler.metrics.parts))
      ensures crashed ==> a.Data? && Handle(old(handler.db.State()), a.line, a.now) == Throws
      ensures !crashed && a.Data? ==> Step(old(Now()), Event.Request(a.line, a.now), Now())
      ensures crashed || !a.Data? ==> Now() == old(Now())
      ensures handler.metrics.clients == old(handler.metrics.clients) + ClientChange(a)
    {
      hide Handle;
      hide Answerable;
      crashed := false;
      match a {
        case Connect =>
          handler.metrics.AddClient();
        case Data(line, now, duration) =>
          var r := handler.ProcessCommand(line, now, duration);
          crashed := r.Thrown?;
        case Gone =>
          handler.metrics.RemoveClient();
      }
    }

    /** A dump; the file stays what it was when it cannot be opened. */
    method WriteDump(opens: bool) returns (ok: bool, ghost listing: Listing)
      requires Valid()
      modifies this`file, this`snapshot
      ensures ok == opens
      ensures if ok then Step(old(Now()), Event.Dump(listing), Now()) else Now() == old(Now())
    {
      listing := Listing([], [], []);
      var ofs := handler.db.Dump(opens);
      ok := ofs.Some?;
      if ok {
        listing :| Lists(listing, handler.db.State()) && ofs.value == DumpText(listing);
        file := ofs;
        snapshot := Some(handler.db.State());
      }
    }

    /** A dump added to the run so far. */
    method AppendDump(opens: bool, ghost ws0: seq<World>, ghost es0: seq<Event>)
        returns (ghost ws: seq<World>, ghost es: seq<Event>)
      requires Valid() && |ws0| == |es0| + 1 && Steps(ws0, es0) && ws0[|es0|] == Now()
      modifies this`file, this`snapshot
      ensures ws0 <= ws && |ws| == |es| + 1 && Steps(ws, es) && ws[|es|] == Now()
      ensures opens ==> snapshot == Some(handler.db.State())
      ensures !opens ==> Now() == old(Now())
    {
      hide Step;
      ws, es := ws0, es0;
      ghost var before := Now();
      var ok;
      ghost var listing;
      ok, listing := WriteDump(opens);
      if ok {
        OneMoreStep(ws, es, Event.Dump(listing), Now());
        ws, es := ws + [Now()], es + [Event.Dump(listing)];
        DumpTakesSnapshot(before, listing, Now());
      }
    }

    /** The loop over rounds, a dump whenever the interval has passed, and a last dump at shutdown, whose file
        opens or not. The run is a run of the step system: the ghost results say which steps were taken and
        where in them each round ended. Whenever a round ends with the interval passed and its file opens, the
        file is a snapshot of that moment. A request that throws ends the process at once, without the last
        dump. */
    method Run(rounds: seq<Round>, opens: bool)
        returns (crashed: bool, ghost ws: seq<World>, ghost es: seq<Event>, ghost ends: seq<nat>)
      requires Valid() && forall i :: 0 <= i < |rounds| ==> RoundReceivable(rounds[i])
      modifies this, handler.db, handler.metrics, handler.metrics.parts
      ensures Valid() && fresh(handler.metrics.parts - old(handler.metrics.parts))
      ensures |ws| == |es| + 1 && Steps(ws, es) && ws[0] == old(Now()) && ws[|es|] == Now()
      ensures |ends| <= |rounds| && (!crashed ==> |ends| == |rounds|)
      ensures lastDump == LastDump(old(lastDump), rounds[..|ends|])
      ensures |ends| > 0 ==> rounds[|ends| - 1].now - lastDump < DUMP_INTERVAL
      ensures Snapshots(ws, old(lastDump), rounds, ends)
      ensures !crashed && opens ==> snapshot == Some(handler.db.State())
      ensures !crashed ==> handler.metrics.clients == old(handler.metrics.clients) + TotalChange(rounds)
    {
      hide Step;
      hide LastDump;
      hide Steps;
      hide Snapshots;
      hide RoundReceivable;
      NoSteps(Now());
      ws, es, ends := [Now()], [], [];
      crashed := false;
      NoRounds(lastDump, rounds, ws);
      for i := 0 to |rounds|
        invariant Valid() && fresh(handler.metrics.parts - old(handler.metrics.parts))
        invariant Steps(ws, es) && |ws| == |es| + 1 && ws[0] == old(Now()) && ws[|es|] == Now()
        invariant |ends| == i && lastDump == LastDump(old(lastDump), rounds[..i])
        invariant i > 0 ==> rounds[i - 1].now - lastDump < DUMP_INTERVAL
        invariant Snapshots(ws, old(lastDump), rounds, ends)
        invariant handler.metrics.clients == old(handler.metrics.clients) + TotalChange(rounds[..i])
      {
        ghost var more, steps;
        crashed, more, steps := ServeRound(rounds[i], ws, es);
        LaterWorlds(ws, more, old(lastDump), rounds, ends);
        ws, es := more, steps;
        if crashed {
          return;
        }
        assert rounds[..i + 1][..i] == rounds[..i];
        OneMoreRound(old(lastDump), rounds, i);
        if rounds[i].now - lastDump >= DUMP_INTERVAL {
          more, steps := AppendDump(rounds[i].opens, ws, es);
          LaterWorlds(ws, more, old(lastDump), rounds, ends);
          ws, es := more, steps;
          lastDump := rounds[i].now;
        }
        OneMoreEnd(ws, old(lastDump), rounds, ends);
        ends := ends + [|es|];
      }
      assert rounds[..|rounds|] == rounds;
      ghost var more, steps := AppendDump(opens, ws, es);
      LaterWorlds(ws, more, old(lastDump), rounds, ends);
      ws, es := more, steps;
    }

    /** The ready descriptors of one round, added to the run so far. */
    method ServeRound(round: Round, ghost ws0: seq<World>, ghost es0: seq<Event>)
        returns (crashed: bool, ghost ws: seq<World>, ghost es: seq<Event>)
      requires Valid() && RoundReceivable(round)
      requires |ws0| == |es0| + 1 && Steps(ws0, es0) && ws0[|es0|] == Now()
      modifies handler.db, handler.metrics, handler.metrics.parts
      ensures Valid() && fresh(handler.metrics.parts - old(handler.metrics.parts))
      ensures ws0 <= ws && |ws| == |es| + 1 && Steps(ws, es) && ws[|es|] == Now()
      ensures !crashed ==>
        handler.metrics.clients == old(handler.metrics.clients) + RoundChange(round.arrivals)
    {
      hide Step;
      ws, es := ws0, es0;
      crashed := false;
      for i := 0 to |round.arrivals|
        invariant Valid() && fresh(handler.metrics.parts - old(handler.metrics.parts))
        invariant ws0 <= ws && Steps(ws, es) && ws[|es|] == Now()
        invariant handler.metrics.clients == old(handler.metrics.clients) + RoundChange(round.arrivals[..i])
      {
        var a := round.arrivals[i];
        assert round.arrivals[..i + 1][..i] == round.arrivals[..i];
        crashed := Receive(a);
        if crashed {
          return;
        }
        if a.Data? {
          ghost var e := Event.Request(a.line, a.now);
          OneMoreStep(ws, es, e, Now());
          ws, es := ws + [Now()], es + [e];
        }
      }
      assert round.arrivals[..|round.arrivals|] == round.arrivals;
    }
  }

  lemma DumpTakesSnapshot(w: World, listing: Listing, w': World)
    requires Step(w, Event.Dump(listing), w')
    ensures w'.snapshot == Some(w'.db)
  {
  }
}
