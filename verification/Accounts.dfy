/** The account registry (gateway/app/accounts.py). Whether key text decodes is given with it. */
module Accounts {
  import opened Wrappers
  import opened Text
  import opened StoreFiles

  /** Base64 key text and the number of bytes it strictly decodes to, if it does. */
  datatype KeyText = KeyText(text: string, decoded: Option<nat>)

  datatype Account = Account(accountId: string, ed25519Pub: string, kemPub: string, agentId: Option<string>)

  type Registry = map<string, Account>

  datatype RegisterError = InvalidAccount | BadSigningKey | BadKemKey | DifferentKey | FlushFailed

  datatype Request = Request(account: string, ed: KeyText, kem: KeyText, agent: Option<string>)

  datatype State = State(memory: Registry, disk: Option<Registry>)

  type Answer = Result<(Account, bool), RegisterError>

  function Loaded(content: Option<Registry>): Registry {
    if content.Some? then content.value else map[]
  }

  function Refusal(q: Request, memory: Registry): Option<RegisterError> {
    if !IsValidAccountId(q.account) then Some(InvalidAccount)
    else if q.ed.decoded != Some(32) then Some(BadSigningKey)
    else if q.kem.decoded.None? then Some(BadKemKey)
    else if q.account in memory && memory[q.account].ed25519Pub != q.ed.text then Some(DifferentKey)
    else None
  }

  /** `register`: the answer and the new state. */
  function Registered(s: State, q: Request, fault: Fault): (State, Answer) {
    if Refusal(q, s.memory).Some? then (s, Err(Refusal(q, s.memory).value))
    else if q.account in s.memory then (s, Ok((s.memory[q.account], false)))
    else
      var account := Account(q.account, q.ed.text, q.kem.text, q.agent);
      var memory := s.memory[q.account := account];
      if fault.NoFault? then (State(memory, Some(memory)), Ok((account, true)))
      else (State(memory, s.disk), Err(FlushFailed))
  }

  /** When each answer is given; the checks come in this order. */
  lemma AnswersIff(s: State, q: Request, fault: Fault)
    ensures var r := Registered(s, q, fault).1;
            var named := IsValidAccountId(q.account);
            var signs := named && q.ed.decoded == Some(32);
            var seals := signs && q.kem.decoded.Some?;
            var known := q.account in s.memory;
            && (r == Err(InvalidAccount) <==> !named)
            && (r == Err(BadSigningKey) <==> named && q.ed.decoded != Some(32))
            && (r == Err(BadKemKey) <==> signs && q.kem.decoded.None?)
            && (r == Err(DifferentKey) <==> seals && known && s.memory[q.account].ed25519Pub != q.ed.text)
            && (r == Err(FlushFailed) <==> seals && !known && fault != NoFault)
            && (r.Ok? && r.value.1 <==> seals && !known && fault == NoFault)
            && (r.Ok? && !r.value.1 <==> seals && known && s.memory[q.account].ed25519Pub == q.ed.text)
            && (r.Ok? && r.value.1 ==> r.value.0 == Account(q.account, q.ed.text, q.kem.text, q.agent))
  {
  }

  class AccountRegistry {
    const file: StoreFile<Registry>
    var cache: Registry

    constructor (file: StoreFile<Registry>)
      ensures this.file == file && cache == Loaded(file.content)
    {
      this.file := file;
      cache := Loaded(file.content);
    }

    method Register(q: Request, fault: Fault) returns (r: Answer)
      modifies this`cache, file
      ensures (State(cache, file.content), r) == Registered(State(old(cache), old(file.content)), q, fault)
      ensures r.Err? && r != Err(FlushFailed) ==> cache == old(cache) && file.content == old(file.content)
      ensures r.Ok? && !r.value.1 ==>
                && q.account in old(cache) && r.value.0 == old(cache)[q.account]
                && cache == old(cache) && file.content == old(file.content)
      ensures (r.Ok? && r.value.1) || r == Err(FlushFailed) ==>
                && q.account !in old(cache)
                && cache == old(cache)[q.account := Account(q.account, q.ed.text, q.kem.text, q.agent)]
      ensures r.Ok? && r.value.1 ==> r.value.0 == cache[q.account] && file.content == Some(cache)
      ensures r == Err(FlushFailed) ==> file.content == old(file.content)
    {
      if !IsValidAccountId(q.account) {
        return Err(InvalidAccount);
      }
      if q.ed.decoded != Some(32) {
        return Err(BadSigningKey);
      }
      if q.kem.decoded.None? {
        return Err(BadKemKey);
      }
      if q.account in cache {
        var existing := cache[q.account];
        if existing.ed25519Pub != q.ed.text {
          return Err(DifferentKey);
        }
        return Ok((existing, false));
      }
      var account := Account(q.account, q.ed.text, q.kem.text, q.agent);
      cache := cache[q.account := account];
      var ok := file.Flush(cache, fault);
      if !ok {
        return Err(FlushFailed);
      }
      return Ok((account, true));
    }
  }

  // ---- Runs.

  datatype Event = Register(q: Request, fault: Fault) | Restart

  const INITIAL := State(map[], None)

  function Step(s: State, e: Event): State {
    match e
    case Restart => s.(memory := Loaded(s.disk))
    case Register(q, fault) => Registered(s, q, fault).0
  }

  function After(s: State, run: seq<Event>): State {
    if run == [] then s else Step(After(s, run[..|run| - 1]), run[|run| - 1])
  }

  ghost predicate Keeps(r: Registry, r': Registry) {
    forall a :: a in r ==> a in r' && r'[a] == r[a]
  }

  ghost predicate Inv(s: State) { Keeps(Loaded(s.disk), s.memory) }

  /** Nothing durable is lost or changed, by any run. */
  lemma {:induction false} DurableIsKept(s: State, run: seq<Event>)
    requires Inv(s)
    ensures Inv(After(s, run)) && Keeps(Loaded(s.disk), Loaded(After(s, run).disk))
  {
    if run != [] {
      DurableIsKept(s, run[..|run| - 1]);
    }
  }

  /**
   A registration that returned created = true survives every later fault and restart with its
   record unchanged, and from then on a different signing key is refused for ever.
   */
  lemma CreatedSurvives(run: seq<Event>, q: Request, fault: Fault, rest: seq<Event>, other: Request, fault': Fault)
    requires var (s1, r) := Registered(After(INITIAL, run), q, fault); r.Ok? && r.value.1
    requires other.account == q.account && other.ed.text != q.ed.text
    ensures var (s1, r) := Registered(After(INITIAL, run), q, fault);
            var s2 := After(s1, rest);
            && q.account in Loaded(s2.disk) && Loaded(s2.disk)[q.account] == r.value.0
            && q.account in s2.memory && s2.memory[q.account].ed25519Pub == q.ed.text
            && Registered(s2, other, fault').1.Err?
  {
    DurableIsKept(INITIAL, run);
    var (s1, r) := Registered(After(INITIAL, run), q, fault);
    DurableIsKept(s1, rest);
  }

  /** Event k was answered created = true while `account` was in memory: its flush wrote that account too. */
  ghost predicate FlushedAt(run: seq<Event>, account: string, k: nat) {
    && k < |run| && run[k].Register?
    && var (s1, r) := Registered(After(INITIAL, run[..k]), run[k].q, run[k].fault);
       r.Ok? && r.value.1 && account in s1.memory
  }

  /** An account is durable exactly when some registration of the run that was answered created wrote it. */
  lemma {:induction false} DurableIffFlushed(run: seq<Event>, account: string)
    ensures account in Loaded(After(INITIAL, run).disk) <==> exists k: nat :: FlushedAt(run, account, k)
  {
    if run != [] {
      var n := |run| - 1;
      var before := run[..n];
      DurableIffFlushed(before, account);
      DurableIsKept(INITIAL, before);
      forall k: nat | k < n ensures FlushedAt(run, account, k) <==> FlushedAt(before, account, k) {
        assert run[..k] == before[..k];
      }
      if account in Loaded(After(INITIAL, run).disk) && account !in Loaded(After(INITIAL, before).disk) {
        assert FlushedAt(run, account, n);
      }
      if account in Loaded(After(INITIAL, before).disk) {
        var k: nat :| FlushedAt(before, account, k);
        assert FlushedAt(run, account, k);
      }
    }
  }

  /** The account answered for stays in memory, unchanged, whatever follows. */
  ghost predicate AlwaysKept(s: State, account: Account) {
    forall rest :: var r := After(s, rest).memory; account.accountId in r && r[account.accountId] == account
  }

  /** At some later point a request for the account with another key is accepted. */
  ghost predicate CanBeRebound(s: State, other: Request) {
    exists rest, fault :: Registered(After(s, rest), other, fault).1.Ok?
  }

  /** Event k put the account into memory, where it was not before, and it has been there since. */
  ghost predicate PutAt(run: seq<Event>, a: string, k: nat) {
    && k < |run| && run[k].Register? && run[k].q.account == a
    && a !in After(INITIAL, run[..k]).memory
    && forall j | k < j <= |run| :: a in After(INITIAL, run[..j]).memory
  }

  /** The account held, in memory and on disk, is exactly what the registration that put it there asked for. */
  lemma {:induction false} HeldIsRegistered(run: seq<Event>, a: string) returns (k: nat)
    ensures var s := After(INITIAL, run);
            a in s.memory ==>
              && PutAt(run, a, k)
              && s.memory[a] == Account(a, run[k].q.ed.text, run[k].q.kem.text, run[k].q.agent)
              && (a in Loaded(s.disk) ==> Loaded(s.disk)[a] == s.memory[a])
  {
    k := 0;
    DurableIsKept(INITIAL, run);
    if run != [] && a in After(INITIAL, run).memory {
      var n := |run| - 1;
      var before := run[..n];
      assert run[..n + 1] == run;
      DurableIsKept(INITIAL, before);
      if a in After(INITIAL, before).memory {
        k := HeldIsRegistered(before, a);
        assert before[..k] == run[..k];
        forall j | k < j <= |run| ensures a in After(INITIAL, run[..j]).memory {
          if j <= n { assert before[..j] == run[..j]; }
        }
      } else {
        k := n;
      }
    }
  }

  /**
   An answered registration, created or repeated, survives every later fault and restart exactly
   when a flush of the run so far wrote the account; and exactly otherwise the account can later be
   bound to another key.
   */
  lemma AnswerSurvivesIffFlushed(run: seq<Event>, q: Request, fault: Fault, other: Request)
    requires Registered(After(INITIAL, run), q, fault).1.Ok?
    requires Refusal(other, map[]).None? && other.account == q.account && other.ed.text != q.ed.text
    ensures var account := Registered(After(INITIAL, run), q, fault).1.value.0;
            var history := run + [Register(q, fault)];
            && account.accountId == q.account && account.ed25519Pub == q.ed.text
            && (AlwaysKept(After(INITIAL, history), account) <==> exists k: nat :: FlushedAt(history, q.account, k))
            && (CanBeRebound(After(INITIAL, history), other) <==> !exists k: nat :: FlushedAt(history, q.account, k))
  {
    var (s1, r) := Registered(After(INITIAL, run), q, fault);
    var history := run + [Register(q, fault)];
    var k := HeldIsRegistered(run, q.account);
    DurableIffFlushed(history, q.account);
    DurableIsKept(INITIAL, history);
    if q.account in Loaded(s1.disk) {
      forall rest ensures var m := After(s1, rest).memory; q.account in m && m[q.account] == r.value.0 {
        DurableIsKept(s1, rest);
      }
    } else {
      assert q.account !in After(s1, [Restart]).memory && Registered(After(s1, [Restart]), other, NoFault).1.Ok? by {
        assert [Restart][..0] == [];
        assert After(s1, []) == s1;
      }
    }
  }

}
