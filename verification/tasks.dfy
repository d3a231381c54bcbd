/** The task list as a value: the `tasks` object with its two ordered lists and
    its id counter, and the three state transitions of the page (create,
    complete, delete) as functions from one collection to the next. */
module Tasks {
  import opened Wrappers
  import opened Text
  import opened TaskIds

  /** A point in time, as a `Date` object holds it (milliseconds since the
      epoch). The clock itself is not modelled: callers pass the time in. */
  datatype Timestamp = Timestamp(millis: int)

  /** One task object. `completedOn` is `null` until the task is completed. */
  datatype Task = Task(
    id: string,
    description: string,
    completed: bool,
    createdOn: Timestamp,
    completedOn: Option<Timestamp>)

  /** The global `tasks` object. */
  datatype Collection = Collection(incomplete: seq<Task>, completed: seq<Task>, nextId: nat)

  /** The state the page starts in. */
  function Initial(): Collection {
    Collection([], [], 1)
  }

  /** Every task in either list, incomplete ones first. */
  function AllTasks(c: Collection): seq<Task> {
    c.incomplete + c.completed
  }

  /** Whether some task of `ts` carries the id `id`. */
  predicate HasId(ts: seq<Task>, id: string) {
    exists k :: 0 <= k < |ts| && ts[k].id == id
  }

  // ---------------------------------------------------------------------------
  // The invariant

  /** The `completed` flag and `completedOn` agree with the list a task sits in. */
  predicate Partitioned(c: Collection) {
    && (forall k :: 0 <= k < |c.incomplete| ==>
          !c.incomplete[k].completed && c.incomplete[k].completedOn == None)
    && (forall k :: 0 <= k < |c.completed| ==>
          c.completed[k].completed && c.completed[k].completedOn.Some?)
  }

  /** `id` is the string `T-<k>` printed for a counter value `1 <= k < n`:
      its number parses back and prints again as exactly `id`, so `T-01` and
      `T-0` are not issued ids. */
  predicate IssuedBefore(id: string, n: nat) {
    ParseId(id).Some? && 1 <= ParseId(id).value < n && id == IdString(ParseId(id).value)
  }

  /** An issued id is exactly one the counter printed, from 1 up to `n - 1`. */
  lemma IssuedBeforeIff(id: string, n: nat)
    ensures IssuedBefore(id, n) <==> exists k :: 1 <= k < n && id == IdString(k)
  {
    if exists k :: 1 <= k < n && id == IdString(k) {
      var k :| 1 <= k < n && id == IdString(k);
      ParseIdString(k);
    }
  }

  /** Every id of `ts` was issued by the counter before it reached `n`. */
  predicate AllIssuedBefore(ts: seq<Task>, n: nat) {
    forall k :: 0 <= k < |ts| ==> IssuedBefore(ts[k].id, n)
  }

  /** No two positions of `ts` share an id. */
  predicate IdsUnique(ts: seq<Task>) {
    forall i, j :: 0 <= i < j < |ts| ==> ts[i].id != ts[j].id
  }

  /** No id occurs in both `ts` and `us`. */
  predicate IdsDisjoint(ts: seq<Task>, us: seq<Task>) {
    forall i, j :: 0 <= i < |ts| && 0 <= j < |us| ==> ts[i].id != us[j].id
  }

  /** The invariant of the task list: flags match lists, ids were issued by
      the counter, and no id occurs twice anywhere. */
  predicate Valid(c: Collection) {
    && Partitioned(c)
    && 1 <= c.nextId
    && AllIssuedBefore(c.incomplete, c.nextId) && AllIssuedBefore(c.completed, c.nextId)
    && IdsUnique(c.incomplete) && IdsUnique(c.completed)
    && IdsDisjoint(c.incomplete, c.completed)
  }

  lemma InitialValid()
    ensures Valid(Initial()) && |AllTasks(Initial())| == 0
  {
  }

  /** In a valid collection no two tasks, in the same list or across the two,
      share an id. */
  lemma ValidIdsUnique(c: Collection)
    requires Valid(c)
    ensures IdsUnique(AllTasks(c))
  {
    var all := AllTasks(c);
    var n := |c.incomplete|;
    forall i, j | 0 <= i < j < |all| ensures all[i].id != all[j].id {
      if j < n {
        assert all[i] == c.incomplete[i] && all[j] == c.incomplete[j];
      } else if i < n {
        assert all[i] == c.incomplete[i] && all[j] == c.completed[j - n];
      } else {
        assert all[i] == c.completed[i - n] && all[j] == c.completed[j - n];
      }
    }
  }

  // ---------------------------------------------------------------------------
  // Searching and splicing

  /** `ts.findIndex(task => task.id === id)`: the first position holding `id`,
      or -1 when there is none. */
  function IndexOf(ts: seq<Task>, id: string): (r: int)
    ensures -1 <= r < |ts|
    ensures r == -1 <==> !HasId(ts, id)
    ensures r >= 0 ==> ts[r].id == id && forall k :: 0 <= k < r ==> ts[k].id != id
  {
    if ts == [] then -1
    else if ts[0].id == id then 0
    else
      var r := IndexOf(ts[1..], id);
      if r == -1 then -1 else r + 1
  }

  /** `ts.splice(i, 1)`: the list without its element at position `i`. */
  function Remove(ts: seq<Task>, i: nat): (r: seq<Task>)
    requires i < |ts|
    ensures |r| == |ts| - 1
    ensures forall k :: 0 <= k < |r| ==> r[k] == if k < i then ts[k] else ts[k + 1]
  {
    ts[..i] + ts[i + 1..]
  }

  /** Removing one position keeps every other element, each once more. */
  lemma RemoveMultiset(ts: seq<Task>, i: nat)
    requires i < |ts|
    ensures multiset(Remove(ts, i)) + multiset{ts[i]} == multiset(ts)
  {
    assert ts == ts[..i] + [ts[i]] + ts[i + 1..];
  }

  /** Removing one position keeps the relative order of the others: any two of
      them appear in the result in the order they had before. */
  lemma RemoveKeepsOrder(ts: seq<Task>, i: nat, j: nat, k: nat)
    requires i < |ts| && j < k < |ts| && j != i && k != i
    ensures var r := Remove(ts, i);
      var j', k' := (if j < i then j else j - 1), (if k < i then k else k - 1);
      j' < k' < |r| && r[j'] == ts[j] && r[k'] == ts[k]
  {
  }

  // ---------------------------------------------------------------------------
  // Validation

  /** `validateTask`: the input is accepted when something is left after
      trimming, that is, when it holds a character that is not whitespace. */
  function ValidateTask(input: string): bool {
    |Trim(input)| > 0
  }

  /** A description is refused exactly when it is all whitespace (the empty
      string included), and accepted as soon as it holds one other character. */
  lemma ValidateTaskIffNotBlank(input: string)
    ensures ValidateTask(input) <==> !IsBlank(input)
    ensures ValidateTask(input) <==> exists k :: 0 <= k < |input| && !IsWhitespace(input[k])
  {
    TrimEmptyIffBlank(input);
  }

  // ---------------------------------------------------------------------------
  // The three transitions

  /** The task `createTask` builds when the counter stands at `n`: the raw
      input as description, not completed, no completion time. */
  function NewTask(n: nat, input: string, now: Timestamp): Task {
    Task(IdString(n), input, false, now, None)
  }

  /** `createTask`: on valid input, append a new task with id `T-<nextId>` to
      the incomplete list and advance the counter; otherwise change nothing. */
  function Create(c: Collection, input: string, now: Timestamp): Collection {
    if ValidateTask(input) then
      Collection(c.incomplete + [NewTask(c.nextId, input, now)], c.completed, c.nextId + 1)
    else c
  }

  /** `handleTaskCompletion`: move the first incomplete task with id `id` to the
      end of the completed list, flagged and stamped; otherwise change nothing. */
  function Complete(c: Collection, id: string, now: Timestamp): Collection {
    var i := IndexOf(c.incomplete, id);
    if i == -1 then c
    else
      var t := c.incomplete[i];
      Collection(Remove(c.incomplete, i),
                 c.completed + [t.(completed := true, completedOn := Some(now))],
                 c.nextId)
  }

  /** `handleTaskDeletion`: drop the first incomplete task with id `id`;
      otherwise change nothing. */
  function Delete(c: Collection, id: string): Collection {
    var i := IndexOf(c.incomplete, id);
    if i == -1 then c else Collection(Remove(c.incomplete, i), c.completed, c.nextId)
  }

  // ---------------------------------------------------------------------------
  // Create

  /** A description that is empty after trimming is refused with no effect;
      any other is stored exactly as typed, untrimmed, in one new task at the
      end of the incomplete list, and the counter grows by one. */
  lemma CreateEffect(c: Collection, input: string, now: Timestamp)
    ensures var c' := Create(c, input, now);
      && (IsBlank(input) ==> c' == c)
      && (!IsBlank(input) ==>
            && c'.incomplete[..|c.incomplete|] == c.incomplete
            && |c'.incomplete| == |c.incomplete| + 1
            && c'.incomplete[|c.incomplete|] == Task(IdString(c.nextId), input, false, now, None)
            && c'.completed == c.completed
            && c'.nextId == c.nextId + 1)
  {
    ValidateTaskIffNotBlank(input);
  }

  // ---------------------------------------------------------------------------
  // How appending and splicing affect the parts of the invariant

  lemma IssuedMonotone(ts: seq<Task>, n: nat, m: nat)
    requires AllIssuedBefore(ts, n) && n <= m
    ensures AllIssuedBefore(ts, m)
  {
  }

  lemma IssuedAppend(ts: seq<Task>, t: Task, n: nat)
    requires AllIssuedBefore(ts, n) && IssuedBefore(t.id, n)
    ensures AllIssuedBefore(ts + [t], n)
  {
  }

  lemma IssuedRemove(ts: seq<Task>, i: nat, n: nat)
    requires i < |ts| && AllIssuedBefore(ts, n)
    ensures AllIssuedBefore(Remove(ts, i), n) && IssuedBefore(ts[i].id, n)
  {
  }

  /** The id the counter is about to hand out belongs to no task issued
      before it. */
  lemma FreshIdAbsent(ts: seq<Task>, n: nat)
    requires AllIssuedBefore(ts, n)
    ensures !HasId(ts, IdString(n))
  {
    ParseIdString(n);
  }

  lemma UniqueAppend(ts: seq<Task>, t: Task)
    requires IdsUnique(ts) && !HasId(ts, t.id)
    ensures IdsUnique(ts + [t])
  {
    var r := ts + [t];
    forall i, j | 0 <= i < j < |r| ensures r[i].id != r[j].id {
      if j == |ts| {
        assert r[i] == ts[i];
      }
    }
  }

  /** Splicing one task out keeps the others unique and leaves no task with the
      removed one's id. */
  lemma UniqueRemove(ts: seq<Task>, i: nat)
    requires i < |ts| && IdsUnique(ts)
    ensures IdsUnique(Remove(ts, i)) && !HasId(Remove(ts, i), ts[i].id)
  {
    var r := Remove(ts, i);
    forall a, b | 0 <= a < b < |r| ensures r[a].id != r[b].id {
      var a0, b0 := (if a < i then a else a + 1), (if b < i then b else b + 1);
      assert r[a] == ts[a0] && r[b] == ts[b0];
    }
  }

  lemma DisjointAppend(ts: seq<Task>, us: seq<Task>, t: Task)
    requires IdsDisjoint(ts, us) && !HasId(ts, t.id)
    ensures IdsDisjoint(ts, us + [t])
  {
    var r := us + [t];
    forall a, b | 0 <= a < |ts| && 0 <= b < |r| ensures ts[a].id != r[b].id {
      if b < |us| {
        assert r[b] == us[b];
      }
    }
  }

  lemma DisjointAppendLeft(ts: seq<Task>, us: seq<Task>, t: Task)
    requires IdsDisjoint(ts, us) && !HasId(us, t.id)
    ensures IdsDisjoint(ts + [t], us)
  {
    var r := ts + [t];
    forall a, b | 0 <= a < |r| && 0 <= b < |us| ensures r[a].id != us[b].id {
      if a < |ts| {
        assert r[a] == ts[a];
      }
    }
  }

  lemma DisjointRemove(ts: seq<Task>, us: seq<Task>, i: nat)
    requires i < |ts| && IdsDisjoint(ts, us)
    ensures IdsDisjoint(Remove(ts, i), us) && !HasId(us, ts[i].id)
  {
    var r := Remove(ts, i);
    forall a, b | 0 <= a < |r| && 0 <= b < |us| ensures r[a].id != us[b].id {
      assert r[a] == ts[if a < i then a else a + 1];
    }
  }

  // ---------------------------------------------------------------------------
  // Create

  /** The id a create hands out belongs to no task already present, in either
      list. */
  lemma CreateFreshId(c: Collection)
    requires Valid(c)
    ensures !HasId(c.incomplete, IdString(c.nextId)) && !HasId(c.completed, IdString(c.nextId))
  {
    FreshIdAbsent(c.incomplete, c.nextId);
    FreshIdAbsent(c.completed, c.nextId);
  }

  /** Appending the task built from the counter, and advancing the counter,
      keeps the invariant. */
  lemma AppendNewTaskPreservesValid(c: Collection, t: Task)
    requires Valid(c) && t.id == IdString(c.nextId) && !t.completed && t.completedOn == None
    ensures Valid(Collection(c.incomplete + [t], c.completed, c.nextId + 1))
  {
    var n := c.nextId;
    CreateFreshId(c);
    ParseIdString(n);
    assert IssuedBefore(t.id, n + 1);
    IssuedMonotone(c.incomplete, n, n + 1);
    IssuedMonotone(c.completed, n, n + 1);
    IssuedAppend(c.incomplete, t, n + 1);
    UniqueAppend(c.incomplete, t);
    DisjointAppendLeft(c.incomplete, c.completed, t);
  }

  lemma CreatePreservesValid(c: Collection, input: string, now: Timestamp)
    requires Valid(c)
    ensures Valid(Create(c, input, now))
  {
    if ValidateTask(input) {
      AppendNewTaskPreservesValid(c, NewTask(c.nextId, input, now));
    }
  }

  // ---------------------------------------------------------------------------
  // Complete

  /** Completing an id absent from the incomplete list changes nothing. */
  lemma CompleteUnknownIsNoop(c: Collection, id: string, now: Timestamp)
    requires !HasId(c.incomplete, id)
    ensures Complete(c, id, now) == c
  {
  }

  /** In particular, completing an id that is already completed changes
      nothing. */
  lemma CompleteCompletedIsNoop(c: Collection, id: string, now: Timestamp)
    requires Valid(c) && HasId(c.completed, id)
    ensures Complete(c, id, now) == c
  {
  }

  /** Completing an incomplete task moves it: it leaves the incomplete list,
      the others keep their order, it is appended to the completed list with
      the flag set and the given completion time, and the counter is kept. */
  lemma CompleteMoves(c: Collection, id: string, now: Timestamp)
    requires Valid(c) && HasId(c.incomplete, id)
    ensures var c' := Complete(c, id, now);
      var i := IndexOf(c.incomplete, id);
      && 0 <= i < |c.incomplete|
      && c'.incomplete == Remove(c.incomplete, i)
      && !HasId(c'.incomplete, id)
      && c'.completed == c.completed + [c.incomplete[i].(completed := true, completedOn := Some(now))]
      && c'.nextId == c.nextId
  {
    UniqueRemove(c.incomplete, IndexOf(c.incomplete, id));
  }

  lemma CompletePreservesValid(c: Collection, id: string, now: Timestamp)
    requires Valid(c)
    ensures Valid(Complete(c, id, now))
  {
    var i := IndexOf(c.incomplete, id);
    if i != -1 {
      var n := c.nextId;
      var t := c.incomplete[i];
      var t' := t.(completed := true, completedOn := Some(now));
      IssuedRemove(c.incomplete, i, n);
      IssuedAppend(c.completed, t', n);
      UniqueRemove(c.incomplete, i);
      DisjointRemove(c.incomplete, c.completed, i);
      UniqueAppend(c.completed, t');
      DisjointAppend(Remove(c.incomplete, i), c.completed, t');
      var c' := Complete(c, id, now);
      assert c'.incomplete == Remove(c.incomplete, i) && c'.completed == c.completed + [t'];
      assert Partitioned(c');
    }
  }

  // ---------------------------------------------------------------------------
  // Delete

  /** Deleting an id absent from the incomplete list changes nothing. */
  lemma DeleteUnknownIsNoop(c: Collection, id: string)
    requires !HasId(c.incomplete, id)
    ensures Delete(c, id) == c
  {
  }

  /** Deleting an incomplete task removes exactly that task, keeps the order of
      the others and leaves the completed list and the counter alone. */
  lemma DeleteRemovesOne(c: Collection, id: string)
    requires Valid(c) && HasId(c.incomplete, id)
    ensures var c' := Delete(c, id);
      var i := IndexOf(c.incomplete, id);
      && 0 <= i < |c.incomplete|
      && c'.incomplete == Remove(c.incomplete, i)
      && multiset(c'.incomplete) + multiset{c.incomplete[i]} == multiset(c.incomplete)
      && !HasId(c'.incomplete, id)
      && c'.completed == c.completed && c'.nextId == c.nextId
  {
    var i := IndexOf(c.incomplete, id);
    UniqueRemove(c.incomplete, i);
    RemoveMultiset(c.incomplete, i);
  }

  /** A second delete of the same id is a no-op. */
  lemma DeleteTwiceIsNoop(c: Collection, id: string)
    requires Valid(c)
    ensures Delete(Delete(c, id), id) == Delete(c, id)
  {
    if HasId(c.incomplete, id) {
      DeleteRemovesOne(c, id);
    }
  }

  lemma DeletePreservesValid(c: Collection, id: string)
    requires Valid(c)
    ensures Valid(Delete(c, id))
  {
    var i := IndexOf(c.incomplete, id);
    if i != -1 {
      IssuedRemove(c.incomplete, i, c.nextId);
      UniqueRemove(c.incomplete, i);
      DisjointRemove(c.incomplete, c.completed, i);
      var c' := Delete(c, id);
      assert Partitioned(c');
    }
  }

  // ---------------------------------------------------------------------------
  // A session

  /** From the initial state: a blank description is refused; "Buy milk"
      becomes task `T-1`; completing `T-1` moves it to the completed list;
      completing it again, or deleting it, changes nothing. */
  lemma BuyMilkSession(t0: Timestamp, t1: Timestamp, t2: Timestamp)
    ensures Create(Initial(), " \t", t0) == Initial()
    ensures var c1 := Create(Initial(), "Buy milk", t0);
      && c1 == Collection([Task("T-1", "Buy milk", false, t0, None)], [], 2)
      && var c2 := Complete(c1, "T-1", t1);
      && c2 == Collection([], [Task("T-1", "Buy milk", true, t0, Some(t1))], 2)
      && Complete(c2, "T-1", t2) == c2
      && Delete(c2, "T-1") == c2
  {
    assert Decimal(1) == "1";
    assert IdString(1) == "T-" + "1" == "T-1";
    assert !IsBlank("Buy milk") by {
      assert !IsWhitespace("Buy milk"[0]);
    }
    ValidateTaskIffNotBlank("Buy milk");
    ValidateTaskIffNotBlank(" \t");
    var milk := Task("T-1", "Buy milk", false, t0, None);
    var c1 := Create(Initial(), "Buy milk", t0);
    assert c1 == Collection([milk], [], 2);
    assert IndexOf([milk], "T-1") == 0;
    var c2 := Complete(c1, "T-1", t1);
    assert c2 == Collection([], [milk.(completed := true, completedOn := Some(t1))], 2);
    assert !HasId(c2.incomplete, "T-1");
  }

  // ---------------------------------------------------------------------------
  // Every reachable state

  /** One user action, as the click handler dispatches it. */
  datatype Action =
    | CreateAction(input: string, now: Timestamp)
    | CompleteAction(id: string, now: Timestamp)
    | DeleteAction(id: string)

  function Apply(c: Collection, a: Action): Collection {
    match a
    case CreateAction(input, now) => Create(c, input, now)
    case CompleteAction(id, now) => Complete(c, id, now)
    case DeleteAction(id) => Delete(c, id)
  }

  /** Each action keeps the invariant and never lowers the counter. */
  lemma ApplyPreservesValid(c: Collection, a: Action)
    requires Valid(c)
    ensures Valid(Apply(c, a)) && Apply(c, a).nextId >= c.nextId
  {
    match a
    case CreateAction(input, now) => CreatePreservesValid(c, input, now);
    case CompleteAction(id, now) => CompletePreservesValid(c, id, now);
    case DeleteAction(id) => DeletePreservesValid(c, id);
  }

  /** The state after the actions of `actions`, in order. */
  function Run(c: Collection, actions: seq<Action>): Collection
    decreases |actions|
  {
    if actions == [] then c else Run(Apply(c, actions[0]), actions[1..])
  }

  /** Every state the page can reach keeps the invariant, and the counter
      never goes back. */
  lemma {:induction false} RunPreservesValid(c: Collection, actions: seq<Action>)
    requires Valid(c)
    ensures Valid(Run(c, actions)) && Run(c, actions).nextId >= c.nextId
    decreases |actions|
  {
    if actions != [] {
      ApplyPreservesValid(c, actions[0]);
      RunPreservesValid(Apply(c, actions[0]), actions[1..]);
    }
  }

  lemma ReachableValid(actions: seq<Action>)
    ensures Valid(Run(Initial(), actions))
  {
    InitialValid();
    RunPreservesValid(Initial(), actions);
  }
}
