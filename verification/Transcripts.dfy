/** The per-tenant transcript store (gateway/app/transcript.py); envelopes are opaque. */
module Transcripts {
  import opened Wrappers
  import opened Text
  import opened StoreFiles

  type Envelope = string

  type Log = map<string, seq<Envelope>>

  datatype StoreError = InvalidAccount | NegativeLimit | FlushFailed

  function Rows(log: Log, account: string): seq<Envelope> {
    if account in log then log[account] else []
  }

  /** The last `limit` rows, in order. */
  function Tail(rows: seq<Envelope>, limit: nat): seq<Envelope> {
    if limit == 0 then [] else if |rows| <= limit then rows else rows[|rows| - limit..]
  }

  class TranscriptStore {
    const file: StoreFile<Log>
    var cache: Log

    constructor (file: StoreFile<Log>)
      ensures this.file == file && cache == Loaded(file.content)
    {
      this.file := file;
      cache := Loaded(file.content);
    }

    method Append(account: string, envelope: Envelope, fault: Fault) returns (r: Result<(), StoreError>)
      modifies this`cache, file
      ensures r == if !IsValidAccountId(account) then Err(InvalidAccount)
                   else if fault.NoFault? then Ok(()) else Err(FlushFailed)
      ensures State(cache, file.content) == Step(State(old(cache), old(file.content)), Event.Append(account, envelope, fault))
      ensures r == Err(InvalidAccount) ==> cache == old(cache) && file.content == old(file.content)
      ensures r != Err(InvalidAccount) ==>
                && cache == old(cache)[account := Rows(old(cache), account) + [envelope]]
                && file.content == if r.Ok? then Some(cache) else old(file.content)
    {
      if !IsValidAccountId(account) {
        return Err(InvalidAccount);
      }
      cache := cache[account := Rows(cache, account) + [envelope]];
      var ok := file.Flush(cache, fault);
      if !ok {
        return Err(FlushFailed);
      }
      return Ok(());
    }

    method List(account: string, limit: int) returns (r: Result<seq<Envelope>, StoreError>)
      ensures r == if !IsValidAccountId(account) then Err(InvalidAccount)
                   else if limit < 0 then Err(NegativeLimit)
                   else Ok(Tail(Rows(cache, account), limit))
    {
      if !IsValidAccountId(account) {
        return Err(InvalidAccount);
      }
      if limit < 0 {
        return Err(NegativeLimit);
      }
      return Ok(Tail(Rows(cache, account), limit));
    }
  }

  function Loaded(content: Option<Log>): Log {
    if content.Some? then content.value else map[]
  }

  // ---- Runs: appends with any faults, and restarts (after a crash or not) at any point.

  datatype State = State(memory: Log, disk: Option<Log>)

  datatype Event =
    | Append(account: string, envelope: Envelope, fault: Fault)
    | Restart

  const INITIAL := State(map[], None)

  function Step(s: State, e: Event): State {
    match e
    case Restart => s.(memory := Loaded(s.disk))
    case Append(account, envelope, fault) =>
      if !IsValidAccountId(account) then s
      else
        var memory := s.memory[account := Rows(s.memory, account) + [envelope]];
        State(memory, if fault.NoFault? then Some(memory) else s.disk)
  }

  function After(s: State, run: seq<Event>): State {
    if run == [] then s else Step(After(s, run[..|run| - 1]), run[|run| - 1])
  }

  function Durable(s: State, account: string): seq<Envelope> { Rows(Loaded(s.disk), account) }

  ghost predicate Inv(s: State) {
    forall a :: Durable(s, a) <= Rows(s.memory, a)
  }

  lemma StepKeeps(s: State, e: Event)
    requires Inv(s)
    ensures Inv(Step(s, e))
    ensures forall a :: Durable(s, a) <= Durable(Step(s, e), a)
  {
    var s' := Step(s, e);
    forall a ensures Durable(s, a) <= Durable(s', a) && Durable(s', a) <= Rows(s'.memory, a) {
      assert Durable(s, a) <= Rows(s.memory, a);
    }
  }

  /**
   In every run the durable transcript of each account is a prefix of its in-memory log, and
   nothing durable is ever lost or reordered.
   */
  lemma {:induction false} DurableIsPrefix(s: State, run: seq<Event>)
    requires Inv(s)
    ensures Inv(After(s, run))
    ensures forall a :: Durable(s, a) <= Durable(After(s, run), a)
  {
    if run != [] {
      var before := After(s, run[..|run| - 1]);
      DurableIsPrefix(s, run[..|run| - 1]);
      StepKeeps(before, run[|run| - 1]);
      forall a ensures Durable(s, a) <= Durable(After(s, run), a) {
        assert Durable(s, a) <= Durable(before, a) <= Durable(After(s, run), a);
      }
    }
  }

  /**
   An append that returned survives: after it, through any later faults and restarts, the
   envelope stays at the position it took, in memory and on disk. It also makes durable every
   earlier append of this process, including ones that raised.
   */
  lemma AppendSurvives(run: seq<Event>, account: string, envelope: Envelope, rest: seq<Event>)
    requires IsValidAccountId(account)
    ensures var s := After(INITIAL, run);
            var s1 := Step(s, Append(account, envelope, NoFault));
            var s2 := After(s1, rest);
            var at := |Rows(s.memory, account)|;
            && (forall a :: Durable(s1, a) == Rows(s1.memory, a))
            && at < |Durable(s2, account)| && Durable(s2, account)[at] == envelope
            && at < |Rows(s2.memory, account)| && Rows(s2.memory, account)[at] == envelope
            && Rows(s.memory, account) <= Durable(s2, account)
  {
    DurableIsPrefix(INITIAL, run);
    var s := After(INITIAL, run);
    var s1 := Step(s, Append(account, envelope, NoFault));
    StepKeeps(s, Append(account, envelope, NoFault));
    DurableIsPrefix(s1, rest);
    var s2 := After(s1, rest);
    assert Durable(s1, account) == Rows(s.memory, account) + [envelope];
    assert Durable(s1, account) <= Durable(s2, account) <= Rows(s2.memory, account);
  }

  /** An append that raised is in memory all the same; a restart before the next successful flush loses it. */
  lemma RaisedAppend(s: State, account: string, envelope: Envelope, fault: Fault)
    requires IsValidAccountId(account) && Inv(s) && !fault.NoFault?
    ensures var s1 := Step(s, Append(account, envelope, fault));
            && Rows(s1.memory, account) == Rows(s.memory, account) + [envelope]
            && Rows(Step(s1, Restart).memory, account) == Durable(s, account)
            && Durable(s, account) < Rows(s1.memory, account)
  {
    assert Durable(s, account) <= Rows(s.memory, account);
  }

  /** `list` is the chronological tail: as many rows as there are, up to the limit, ending with the newest. */
  lemma TailIsSuffix(rows: seq<Envelope>, limit: nat)
    ensures var t := Tail(rows, limit);
            && |t| == (if |rows| <= limit then |rows| else limit)
            && rows == rows[..|rows| - |t|] + t
  {
  }

  predicate Flushes(e: Event) { e.Append? && IsValidAccountId(e.account) && e.fault.NoFault? }

  ghost predicate IsLastFlush(run: seq<Event>, k: nat) {
    k < |run| && Flushes(run[k]) && forall j | k < j < |run| :: !Flushes(run[j])
  }

  /** What is durable after any run is the whole memory at its last successful flush. */
  lemma {:induction false} DurableIsLastFlush(run: seq<Event>)
    ensures forall k: nat | IsLastFlush(run, k) ::
              After(INITIAL, run).disk == Some(After(INITIAL, run[..k + 1]).memory)
    ensures (forall k | 0 <= k < |run| :: !Flushes(run[k])) ==> After(INITIAL, run).disk.None?
  {
    if run != [] {
      var n := |run| - 1;
      DurableIsLastFlush(run[..n]);
      forall k: nat | IsLastFlush(run, k)
        ensures After(INITIAL, run).disk == Some(After(INITIAL, run[..k + 1]).memory)
      {
        if k == n {
          assert run[..k + 1] == run;
        } else {
          assert IsLastFlush(run[..n], k);
          assert run[..n][..k + 1] == run[..k + 1];
        }
      }
    }
  }

  /** The same events for `account`: its own appends, the restarts, and whether others' appends flushed. */
  ghost predicate SameFor(run: seq<Event>, run': seq<Event>, account: string) {
    && |run| == |run'|
    && forall i | 0 <= i < |run| ::
         || run[i] == run'[i]
         || (run[i].Append? && run[i].account != account && run'[i].Append? && run'[i].account != account
             && (Flushes(run[i]) <==> Flushes(run'[i])))
  }

  /** In every run an account's rows, in memory and on disk, depend on no other account's appends but for when they flush. */
  lemma {:induction false} TenantsAreSeparate(run: seq<Event>, run': seq<Event>, account: string)
    requires SameFor(run, run', account)
    ensures var s, s' := After(INITIAL, run), After(INITIAL, run');
            Rows(s.memory, account) == Rows(s'.memory, account) && Durable(s, account) == Durable(s', account)
  {
    if run != [] {
      var n := |run| - 1;
      TenantsAreSeparate(run[..n], run'[..n], account);
      assert run[n] == run'[n] || run[n].account != account;
    }
  }
}
