/**
 * The bookkeeping of `GhastApp`: the tracked repositories, kept both as a
 * display-ordered list and as a map from name to the same object, the
 * message log, and the update cycle of one repository (fetch result in,
 * status reconciled, next update scheduled, list re-sorted).
 *
 * Time is passed in as integer milliseconds, the value of `Math.random()`
 * as `jitter`, and the fetched runs as a `FetchResult`.
 */
module App {
  import opened Wrappers
  import opened Text
  import Runs
  import opened Schedule
  import opened Ordering
  import opened Log

  /** What `fetchGitHubApi` produced: the `workflow_runs` list, or the error it threw. */
  datatype FetchResult = Fetched(runs: seq<Runs.Run>) | FetchFailed(error: string)

  /** One element of the stored array, after `JSON.parse` with date revival. */
  datatype StoredRecord = StoredRecord(name: Option<string>, status: Option<Runs.RunStatus>, lastUpdatedDate: Option<int>)

  /** The `repositories` item of local storage: missing, unparsable, or parsed. */
  datatype Stored = NotStored | Unparsable(error: string) | Parsed(records: seq<StoredRecord>)

  /** A tracked repository; `timer` is the delay of its pending update, if one is armed. */
  class Repository {
    const name: string
    var status: Option<Runs.RunStatus>
    var lastUpdatedDate: Option<int>
    var nextUpdateDate: Option<int>
    var timer: Option<real>

    /** The record `{name: name}` created by `addRepositories`. */
    constructor (name: string)
      ensures this.name == name && status == None && lastUpdatedDate == None
      ensures nextUpdateDate == None && timer == None
    {
      this.name := name;
      status := None;
      lastUpdatedDate := None;
      nextUpdateDate := None;
      timer := None;
    }

    /** A record read back from storage, with its timer and next update date cleared. */
    constructor Restore(name: string, status: Option<Runs.RunStatus>, lastUpdatedDate: Option<int>)
      ensures this.name == name && this.status == status && this.lastUpdatedDate == lastUpdatedDate
      ensures nextUpdateDate == None && timer == None
    {
      this.name := name;
      this.status := status;
      this.lastUpdatedDate := lastUpdatedDate;
      nextUpdateDate := None;
      timer := None;
    }

    /**
     * The loop of `updateRepository` over fetched runs: the first run of a
     * push event becomes the status; without one the status stays.
     */
    method Reconcile(runs: seq<Runs.Run>)
      modifies this`status
      ensures status == Runs.Reconciled(old(status), runs)
    {
      var runIdx := 0;
      while runIdx < |runs|
        invariant 0 <= runIdx <= |runs|
        invariant status == old(status)
        invariant Runs.Reconciled(old(status), runs) == Runs.Reconciled(old(status), runs[runIdx..])
      {
        var run := runs[runIdx];
        if run.event != "push" {
          assert runs[runIdx..][1..] == runs[runIdx + 1..];
          runIdx := runIdx + 1;
          continue;
        }
        status := Some(Runs.BuildStatus(run));
        break;
      }
      if runIdx == |runs| {
        assert runs[runIdx..] == [];
      }
    }
  }

  function Names(rs: seq<Repository>): (r: seq<string>)
    ensures |r| == |rs| && forall i :: 0 <= i < |rs| ==> r[i] == rs[i].name
  {
    seq(|rs|, i requires 0 <= i < |rs| => rs[i].name)
  }

  /**
   * Names pairwise distinct. `Unique` below states the same entry by entry;
   * `UniqueDistinct` shows the two agree. The pairwise form suits facts about
   * positions, the entry-by-entry form suits proofs that grow a list one
   * name at a time, as the loading and adding loops do.
   */
  predicate Distinct(s: seq<string>) {
    forall i, j :: 0 <= i < j < |s| ==> s[i] != s[j]
  }

  /** Distinctness stated entry by entry: no name recurs after its first occurrence. */
  predicate Unique(s: seq<string>) {
    s == [] || (s[0] !in s[1..] && Unique(s[1..]))
  }

  /** The entry-by-entry and the pairwise statements of distinctness agree. */
  lemma {:induction false} UniqueDistinct(s: seq<string>)
    ensures Unique(s) <==> Distinct(s)
  {
    if s != [] {
      UniqueDistinct(s[1..]);
      if Distinct(s) {
        DistinctTail(s);
      }
      if s[0] !in s[1..] && Distinct(s[1..]) {
        forall i, j | 0 <= i < j < |s| ensures s[i] != s[j] {
          assert s[j] == s[1..][j - 1];
          if i > 0 {
            assert s[i] == s[1..][i - 1];
          }
        }
      }
    }
  }

  /**
   * The list and the map describe the same repositories: names in the list
   * are pairwise distinct, the map's keys are exactly those names, and each
   * key maps to the list's object of that name.
   */
  ghost predicate Consistent(rs: seq<Repository>, byName: map<string, Repository>) {
    && Unique(Names(rs))
    && (forall i :: 0 <= i < |rs| ==> rs[i].name in byName && byName[rs[i].name] == rs[i])
    && (forall n :: n in byName ==> n in Names(rs))
  }

  // ---------------------------------------------------------------------
  // Adding repositories

  /** The message `addRepositories` logs for `name` when `names` are already tracked. */
  function AddNotice(names: seq<string>, name: string, id: nat): Message {
    if name in names then Message("Repository " + name + " already exists", ErrorMessage, id)
    else Message("Repository " + name + " added", SuccessMessage, id)
  }

  /** The tracked names after one name of a batch: appended unless already there. */
  function AddOne(names: seq<string>, name: string): seq<string> {
    if name in names then names else names + [name]
  }


  /** The tracked names after a whole batch, each name checked against those before it. */
  function AddAll(names: seq<string>, tokens: seq<string>): seq<string> {
    if tokens == [] then names
    else AddOne(AddAll(names, tokens[..|tokens| - 1]), tokens[|tokens| - 1])
  }

  /** The messages a whole batch logs, one per token, numbered from `id`. */
  function AddNotices(names: seq<string>, tokens: seq<string>, id: nat): (r: seq<Message>)
    ensures |r| == |tokens|
  {
    if tokens == [] then []
    else
      var prefix := tokens[..|tokens| - 1];
      AddNotices(names, prefix, id) + [AddNotice(AddAll(names, prefix), tokens[|tokens| - 1], id + |prefix|)]
  }

  /** Adding a batch never creates two entries with the same name. */
  lemma {:induction false} AddAllDistinct(names: seq<string>, tokens: seq<string>)
    requires Distinct(names)
    ensures Distinct(AddAll(names, tokens))
  {
    if tokens != [] {
      AddAllDistinct(names, tokens[..|tokens| - 1]);
    }
  }

  /**
   * The tracked names keep their order and gain the batch's new names at
   * the end; a name is tracked afterwards exactly when it was before or is
   * in the batch.
   */
  lemma {:induction false} AddAllMembers(names: seq<string>, tokens: seq<string>)
    ensures names <= AddAll(names, tokens)
    ensures forall n :: n in AddAll(names, tokens) <==> n in names || n in tokens
  {
    if tokens != [] {
      var prefix := tokens[..|tokens| - 1];
      AddAllMembers(names, prefix);
      assert tokens == prefix + [tokens[|tokens| - 1]];
    }
  }

  /** Message `i` of a batch is the one token `i` logs against the names tracked before it. */
  lemma {:induction false} AddNoticesAt(names: seq<string>, tokens: seq<string>, id: nat, i: nat)
    requires i < |tokens|
    ensures AddNotices(names, tokens, id)[i] == AddNotice(AddAll(names, tokens[..i]), tokens[i], id + i)
  {
    var prefix := tokens[..|tokens| - 1];
    if i < |prefix| {
      AddNoticesAt(names, prefix, id, i);
      assert prefix[..i] == tokens[..i] && prefix[i] == tokens[i];
    } else {
      assert prefix == tokens[..i];
    }
  }

  /**
   * Token `i` of a batch logs message `id + i`: an error when the name was
   * already tracked or occurred earlier in the batch, a success otherwise.
   */
  lemma AddNoticesShape(names: seq<string>, tokens: seq<string>, id: nat)
    ensures |AddNotices(names, tokens, id)| == |tokens|
    ensures forall i :: 0 <= i < |tokens| ==>
      && AddNotices(names, tokens, id)[i].id == id + i
      && (AddNotices(names, tokens, id)[i].messageType == ErrorMessage <==> tokens[i] in names || tokens[i] in tokens[..i])
      && AddNotices(names, tokens, id)[i].text ==
           "Repository " + tokens[i] + (if tokens[i] in names || tokens[i] in tokens[..i] then " already exists" else " added")
  {
    forall i | 0 <= i < |tokens|
      ensures AddNotices(names, tokens, id)[i] == AddNotice(AddAll(names, tokens[..i]), tokens[i], id + i)
      ensures tokens[i] in AddAll(names, tokens[..i]) <==> tokens[i] in names || tokens[i] in tokens[..i]
    {
      AddNoticesAt(names, tokens, id, i);
      AddAllMembers(names, tokens[..i]);
    }
  }

  /**
   * Adding the same new name twice in one batch tracks it once and logs a
   * success followed by an error.
   */
  lemma DuplicateInBatch(names: seq<string>, name: string, id: nat)
    requires name != [] && NoSpace(name) && name !in names
    ensures Split(JoinSpaced([name, name])) == [name, name]
    ensures AddAll(names, [name, name]) == names + [name]
    ensures AddNotices(names, [name, name], id) ==
      [Message("Repository " + name + " added", SuccessMessage, id),
       Message("Repository " + name + " already exists", ErrorMessage, id + 1)]
  {
    SplitJoinSpaced([name, name]);
    assert [name, name][..1] == [name];
    assert [name][..0] == [];
    assert AddAll(names, [name]) == names + [name];
    assert AddNotices(names, [name], id) == [AddNotice(names, name, id)];
    assert name in names + [name];
  }

  // ---------------------------------------------------------------------
  // Removing repositories

  /** The list without its first entry named `name`. */
  function RemoveNamed(rs: seq<Repository>, name: string): seq<Repository> {
    if rs == [] then []
    else if rs[0].name == name then rs[1..]
    else [rs[0]] + RemoveNamed(rs[1..], name)
  }

  /** Removal cuts out the first entry of that name and keeps the rest in order. */
  lemma {:induction false} RemoveNamedAt(rs: seq<Repository>, name: string, k: nat)
    requires k < |rs| && rs[k].name == name
    requires forall j :: 0 <= j < k ==> rs[j].name != name
    ensures RemoveNamed(rs, name) == rs[..k] + rs[k + 1..]
  {
    if k > 0 {
      RemoveNamedAt(rs[1..], name, k - 1);
      assert rs[..k] == [rs[0]] + rs[1..][..k - 1];
      assert rs[k + 1..] == rs[1..][k..];
    }
  }

  /** Removing a name that is not in the list changes nothing. */
  lemma {:induction false} RemoveNamedAbsent(rs: seq<Repository>, name: string)
    requires forall j :: 0 <= j < |rs| ==> rs[j].name != name
    ensures RemoveNamed(rs, name) == rs
  {
    if rs != [] {
      RemoveNamedAbsent(rs[1..], name);
      assert rs == [rs[0]] + rs[1..];
    }
  }

  lemma DistinctTail(s: seq<string>)
    requires Distinct(s) && s != []
    ensures Distinct(s[1..]) && s[0] !in s[1..]
  {
    forall i | 0 <= i < |s[1..]| ensures s[1..][i] != s[0] {
      assert s[i + 1] != s[0];
    }
  }

  /**
   * With distinct names, removal leaves no entry of that name, keeps every
   * other name, and the names stay distinct.
   */
  lemma {:induction false} RemoveNamedNames(rs: seq<Repository>, name: string)
    requires Distinct(Names(rs))
    ensures Distinct(Names(RemoveNamed(rs, name)))
    ensures forall n :: n in Names(RemoveNamed(rs, name)) <==> n in Names(rs) && n != name
  {
    if rs != [] {
      assert Names(rs) == [rs[0].name] + Names(rs[1..]);
      DistinctTail(Names(rs));
      assert Names(rs)[1..] == Names(rs[1..]);
      RemoveNamedNames(rs[1..], name);
      if rs[0].name != name {
        var rest := RemoveNamed(rs[1..], name);
        assert Names([rs[0]] + rest) == [rs[0].name] + Names(rest);
      }
    }
  }

  // ---------------------------------------------------------------------
  // Display order

  /** Each repository paired with its sorting key, in the current heap. */
  function Tagged(rs: seq<Repository>): (t: seq<(int, Repository)>)
    reads rs
    ensures |t| == |rs| && forall i :: 0 <= i < |rs| ==> t[i] == (SortingKey(rs[i].status), rs[i])
  {
    if rs == [] then [] else [(SortingKey(rs[0].status), rs[0])] + Tagged(rs[1..])
  }

  /** The list after `this.repositories.sort(...)` in `updateRepository`. */
  function DisplayOrder(rs: seq<Repository>): seq<Repository>
    reads rs
  {
    Items(SortDesc(Tagged(rs)))
  }

  /** Each entry of the sorted pairs still carries its repository's key. */
  lemma SortedKeysMatch(rs: seq<Repository>)
    ensures forall i :: 0 <= i < |SortDesc(Tagged(rs))| ==>
      SortDesc(Tagged(rs))[i].0 == SortingKey(SortDesc(Tagged(rs))[i].1.status)
  {
    var t := Tagged(rs);
    var s := SortDesc(t);
    SortDescPermutation(t);
    forall i | 0 <= i < |s| ensures s[i].0 == SortingKey(s[i].1.status) {
      assert s[i] in multiset(t);
      var j :| 0 <= j < |t| && t[j] == s[i];
    }
  }

  /**
   * The display order holds as many repositories as before, with sorting
   * keys that never increase along the list.
   */
  lemma DisplayOrderSorted(rs: seq<Repository>)
    ensures |DisplayOrder(rs)| == |rs|
    ensures forall i, j :: 0 <= i < j < |rs| ==>
      SortingKey(DisplayOrder(rs)[i].status) >= SortingKey(DisplayOrder(rs)[j].status)
  {
    var t := Tagged(rs);
    var s := SortDesc(t);
    SortDescPermutation(t);
    assert |s| == |multiset(s)| == |multiset(t)| == |t|;
    SortDescOrdered(t);
    SortedKeysMatch(rs);
    forall i, j | 0 <= i < j < |rs|
      ensures SortingKey(DisplayOrder(rs)[i].status) >= SortingKey(DisplayOrder(rs)[j].status)
    {
      assert DisplayOrder(rs)[i] == s[i].1 && DisplayOrder(rs)[j] == s[j].1;
      assert s[i].0 >= s[j].0;
    }
  }

  /** The display order holds the same repositories, each at one position only. */
  lemma DisplayOrderMembers(rs: seq<Repository>)
    requires forall i, j :: 0 <= i < j < |rs| ==> rs[i] != rs[j]
    ensures forall x :: x in DisplayOrder(rs) <==> x in rs
    ensures forall i, j :: 0 <= i < j < |DisplayOrder(rs)| ==> DisplayOrder(rs)[i] != DisplayOrder(rs)[j]
  {
    var t := Tagged(rs);
    assert Items(t) == rs;
    assert DistinctItems(t);
    SortDescItems(t);
    var s := SortDesc(t);
    forall i, j | 0 <= i < j < |DisplayOrder(rs)| ensures DisplayOrder(rs)[i] != DisplayOrder(rs)[j] {
      assert DisplayOrder(rs)[i] == s[i].1 && DisplayOrder(rs)[j] == s[j].1;
    }
  }

  /**
   * A rearrangement of a consistent list, with the same repositories each
   * at one position, is consistent with the same map.
   */
  lemma RearrangedConsistent(rs: seq<Repository>, r: seq<Repository>, byName: map<string, Repository>)
    requires Consistent(rs, byName)
    requires forall x :: x in r <==> x in rs
    requires forall i, j :: 0 <= i < j < |r| ==> r[i] != r[j]
    ensures Consistent(r, byName)
  {
    forall i | 0 <= i < |r| ensures r[i].name in byName && byName[r[i].name] == r[i] {
      assert r[i] in rs;
      var j :| 0 <= j < |rs| && rs[j] == r[i];
    }
    forall i, j | 0 <= i < j < |r| ensures Names(r)[i] != Names(r)[j] {
      assert byName[r[i].name] == r[i] && byName[r[j].name] == r[j];
    }
    forall n | n in byName ensures n in Names(r) {
      var j :| 0 <= j < |rs| && Names(rs)[j] == n;
      assert rs[j] in r;
      var i :| 0 <= i < |r| && r[i] == rs[j];
      assert Names(r)[i] == n;
    }
    UniqueDistinct(Names(r));
  }

  /** Re-sorting keeps the list and the map describing the same repositories. */
  lemma DisplayOrderConsistent(rs: seq<Repository>, byName: map<string, Repository>)
    requires Consistent(rs, byName)
    ensures Consistent(DisplayOrder(rs), byName)
  {
    UniqueDistinct(Names(rs));
    forall i, j | 0 <= i < j < |rs| ensures rs[i] != rs[j] {
      assert Names(rs)[i] != Names(rs)[j];
    }
    DisplayOrderMembers(rs);
    RearrangedConsistent(rs, DisplayOrder(rs), byName);
  }

  // ---------------------------------------------------------------------
  // Loading

  /** Positions of the stored records that have a name, in order. */
  function NamedIndices(records: seq<StoredRecord>): (r: seq<nat>)
    ensures forall k :: 0 <= k < |r| ==> r[k] < |records| && records[r[k]].name.Some?
  {
    if records == [] then []
    else
      var last := |records| - 1;
      NamedIndices(records[..last]) + (if records[last].name.Some? then [last] else [])
  }

  /** The named positions come in increasing order and include every record that has a name. */
  lemma {:induction false} NamedIndicesComplete(records: seq<StoredRecord>)
    ensures forall k, l :: 0 <= k < l < |NamedIndices(records)| ==> NamedIndices(records)[k] < NamedIndices(records)[l]
    ensures forall i :: 0 <= i < |records| && records[i].name.Some? ==> i in NamedIndices(records)
  {
    if records != [] {
      var last := |records| - 1;
      var init := records[..last];
      NamedIndicesComplete(init);
      forall i | 0 <= i < |records| && records[i].name.Some? ensures i in NamedIndices(records) {
        if i < last {
          assert init[i] == records[i];
          assert i in NamedIndices(init);
        }
      }
    }
  }

  const LOAD_FAILED := "loading repositories failed"
  const LOAD_SOME_FAILED := "loading some repositories failed"

  predicate SomeNamed(records: seq<StoredRecord>) {
    exists i :: 0 <= i < |records| && records[i].name.Some?
  }

  predicate SomeUnnamed(records: seq<StoredRecord>) {
    exists i :: 0 <= i < |records| && records[i].name.None?
  }

  lemma NamedIndicesEmpty(records: seq<StoredRecord>)
    ensures |NamedIndices(records)| > 0 <==> SomeNamed(records)
  {
    if SomeNamed(records) {
      var i :| 0 <= i < |records| && records[i].name.Some?;
      NamedIndicesComplete(records);
      assert i in NamedIndices(records);
    }
    if |NamedIndices(records)| > 0 {
      assert records[NamedIndices(records)[0]].name.Some?;
    }
  }

  /**
   * The message `beforeMount` logs after loading: none when every record
   * had a name, "loading repositories failed" when none had one, and
   * "loading some repositories failed" when only some had one.
   */
  function LoadNotice(records: seq<StoredRecord>): (t: Option<string>)
    ensures t == None <==> !SomeUnnamed(records)
    ensures t == Some(LOAD_FAILED) <==> SomeUnnamed(records) && !SomeNamed(records)
    ensures t == Some(LOAD_SOME_FAILED) <==> SomeUnnamed(records) && SomeNamed(records)
  {
    NamedIndicesEmpty(records);
    assert |LOAD_FAILED| != |LOAD_SOME_FAILED|;
    if SomeUnnamed(records) then
      if |NamedIndices(records)| > 0 then Some(LOAD_SOME_FAILED) else Some(LOAD_FAILED)
    else None
  }

  /** The names of the repositories `beforeMount` restores, in stored order. */
  function LoadedNames(records: seq<StoredRecord>): seq<string>
  {
    if records == [] then []
    else
      var last := |records| - 1;
      LoadedNames(records[..last]) + (if records[last].name.Some? then [records[last].name.value] else [])
  }

  /** The restored names are the names of the named records, in their order. */
  lemma {:induction false} LoadedNamesAt(records: seq<StoredRecord>)
    ensures |LoadedNames(records)| == |NamedIndices(records)|
    ensures forall k :: 0 <= k < |LoadedNames(records)| ==>
      Some(LoadedNames(records)[k]) == records[NamedIndices(records)[k]].name
  {
    if records != [] {
      var last := |records| - 1;
      var init := records[..last];
      LoadedNamesAt(init);
      forall k | 0 <= k < |LoadedNames(init)|
        ensures Some(LoadedNames(records)[k]) == records[NamedIndices(records)[k]].name
      {
        assert LoadedNames(records)[k] == LoadedNames(init)[k] && NamedIndices(records)[k] == NamedIndices(init)[k];
        assert records[NamedIndices(init)[k]] == init[NamedIndices(init)[k]];
      }
    }
  }

  // ---------------------------------------------------------------------
  // The application state

  /**
   * A record as `addRepositories` leaves it: no status, never updated, its
   * first update armed with no delay, so due at `now`.
   */
  ghost predicate JustAdded(r: Repository, now: int)
    reads r
  {
    r.status == None && r.lastUpdatedDate == None && r.timer == Some(0.0) && r.nextUpdateDate == Some(now)
  }

  /**
   * A repository as `beforeMount` leaves it for its stored record: the
   * record's name, status and last update, its timer armed with the delay
   * rule's value and its next update date set from that delay.
   */
  ghost predicate Restored(r: Repository, record: StoredRecord, now: int, jitter: real)
    reads r
  {
    var delay := PollDelay(record.lastUpdatedDate, record.status, now, jitter);
    && record.name == Some(r.name)
    && r.status == record.status && r.lastUpdatedDate == record.lastUpdatedDate
    && r.timer == Some(delay) && r.nextUpdateDate == Some(NextUpdateDate(now, delay))
  }

  /**
   * The list holds, in order, one repository restored from each named
   * record; stated record by record from the end.
   */
  ghost predicate RestoredFrom(rs: seq<Repository>, records: seq<StoredRecord>, now: int, jitter: nat -> real)
    reads rs
    decreases |records|
  {
    if records == [] then rs == []
    else
      var last := |records| - 1;
      if records[last].name.Some? then
        && rs != []
        && RestoredFrom(rs[..|rs| - 1], records[..last], now, jitter)
        && Restored(rs[|rs| - 1], records[last], now, jitter(last))
      else
        RestoredFrom(rs, records[..last], now, jitter)
  }

  /** Entry `k` of a list restored from `records` comes from the `k`-th named record. */
  lemma {:induction false} RestoredFromAt(rs: seq<Repository>, records: seq<StoredRecord>, now: int, jitter: nat -> real)
    requires RestoredFrom(rs, records, now, jitter)
    ensures |rs| == |NamedIndices(records)|
    ensures forall k :: 0 <= k < |rs| ==>
      Restored(rs[k], records[NamedIndices(records)[k]], now, jitter(NamedIndices(records)[k]))
  {
    if records != [] {
      var last := |records| - 1;
      var init := records[..last];
      if records[last].name.Some? {
        var front := rs[..|rs| - 1];
        RestoredFromAt(front, init, now, jitter);
        forall k | 0 <= k < |front|
          ensures Restored(rs[k], records[NamedIndices(records)[k]], now, jitter(NamedIndices(records)[k]))
        {
          assert rs[k] == front[k] && NamedIndices(records)[k] == NamedIndices(init)[k];
          assert records[NamedIndices(init)[k]] == init[NamedIndices(init)[k]];
        }
      } else {
        RestoredFromAt(rs, init, now, jitter);
        forall k | 0 <= k < |rs|
          ensures Restored(rs[k], records[NamedIndices(records)[k]], now, jitter(NamedIndices(records)[k]))
        {
          assert records[NamedIndices(init)[k]] == init[NamedIndices(init)[k]];
        }
      }
    }
  }

  /** One more stored record extends the restored names and the error flag. */
  lemma LoadStep(records: seq<StoredRecord>, i: nat)
    requires i < |records|
    ensures LoadedNames(records[..i + 1]) ==
      LoadedNames(records[..i]) + (if records[i].name.Some? then [records[i].name.value] else [])
    ensures SomeUnnamed(records[..i + 1]) == (SomeUnnamed(records[..i]) || records[i].name.None?)
  {
    var p, q := records[..i], records[..i + 1];
    assert q[..i] == p;
    assert q[i] == records[i];
    if SomeUnnamed(q) && records[i].name.Some? {
      var j :| 0 <= j < |q| && q[j].name.None?;
      assert p[j] == q[j];
    }
    if SomeUnnamed(p) {
      var j :| 0 <= j < |p| && p[j].name.None?;
      assert q[j] == p[j];
    }
  }

  /** Distinctness of a list with one more entry: the shorter list is distinct and lacks it. */
  lemma UniqueSnoc(s: seq<string>, x: string)
    ensures Unique(s + [x]) <==> Unique(s) && x !in s
  {
    UniqueDistinct(s);
    UniqueDistinct(s + [x]);
    var t := s + [x];
    if Distinct(s) && x !in s {
      forall i, j | 0 <= i < j < |t| ensures t[i] != t[j] {
        if j == |s| {
          assert t[i] == s[i];
        } else {
          assert t[i] == s[i] && t[j] == s[j];
        }
      }
    }
    if Distinct(t) {
      forall i, j | 0 <= i < j < |s| ensures s[i] != s[j] {
        assert t[i] == s[i] && t[j] == s[j];
      }
      forall i | 0 <= i < |s| ensures s[i] != x {
        assert t[i] == s[i] && t[|s|] == x;
      }
    }
  }

  /**
   * Appending a restored repository and keying it by its name keeps the
   * keys equal to the names, and keeps the list and the map consistent as
   * long as no name occurs twice.
   */
  lemma RestoredConsistent(rs: seq<Repository>, byName: map<string, Repository>, r: Repository)
    requires forall n :: n in byName <==> n in Names(rs)
    requires Unique(Names(rs)) ==> Consistent(rs, byName)
    ensures Names(rs + [r]) == Names(rs) + [r.name]
    ensures forall n :: n in byName[r.name := r] <==> n in Names(rs + [r])
    ensures Unique(Names(rs + [r])) ==> Consistent(rs + [r], byName[r.name := r])
  {
    assert Names(rs + [r]) == Names(rs) + [r.name];
    UniqueSnoc(Names(rs), r.name);
    if Unique(Names(rs + [r])) {
      AppendedConsistent(rs, byName, r);
    }
  }

  class GhastApp {
    var messages: seq<Message>
    var nextMessageId: nat
    var repositories: seq<Repository>
    var repositoriesByName: map<string, Repository>
    var debug: bool

    ghost predicate Valid()
      reads this
    {
      && Consistent(repositories, repositoriesByName)
      && IncreasingIds(messages)
      && IdsBelow(messages, nextMessageId)
    }

    /** The state of `data()`: nothing tracked, no messages, debugging off. */
    constructor ()
      ensures Valid()
      ensures messages == [] && nextMessageId == 0 && repositories == [] && repositoriesByName == map[] && !debug
    {
      messages := [];
      nextMessageId := 0;
      repositories := [];
      repositoriesByName := map[];
      debug := false;
    }

    /**
     * `data()` followed by `beforeMount`: restore the debug flag and the
     * stored repositories, schedule each one, and report records without a
     * name. `jitter(i)` is the random value drawn when scheduling record `i`.
     */
    constructor Mount(storedDebug: Option<string>, stored: Stored, now: int, jitter: nat -> real)
      ensures debug == (storedDebug == Some("true"))
      ensures stored.NotStored? ==> repositories == [] && repositoriesByName == map[] && messages == [] && nextMessageId == 0
      ensures stored.Unparsable? ==>
        && repositories == [] && repositoriesByName == map[]
        && messages == [Message(LOAD_FAILED + stored.error, ErrorMessage, 0)] && nextMessageId == 1
      ensures stored.Parsed? ==>
        var records := stored.records;
        && Names(repositories) == LoadedNames(records)
        && RestoredFrom(repositories, records, now, jitter)
        && (forall n :: n in repositoriesByName <==> n in LoadedNames(records))
        && messages == (match LoadNotice(records) case None => [] case Some(t) => [Message(t, ErrorMessage, 0)])
        && nextMessageId == |messages|
        && (Distinct(LoadedNames(records)) ==> Valid())
    {
      messages := [];
      nextMessageId := 0;
      repositories := [];
      repositoriesByName := map[];
      debug := storedDebug == Some("true");
      new;
      match stored {
        case NotStored =>
        case Unparsable(error) =>
          var _ := AddMessage(LOAD_FAILED + error, ErrorMessage);
        case Parsed(records) =>
          LoadRecords(records, now, jitter);
      }
    }

    /**
     * The part of `beforeMount` for a parsed list: restore the records,
     * then report records without a name, telling apart whether any record
     * could be restored.
     */
    method LoadRecords(records: seq<StoredRecord>, now: int, jitter: nat -> real)
      requires repositories == [] && repositoriesByName == map[] && messages == [] && nextMessageId == 0
      modifies this
      ensures Names(repositories) == LoadedNames(records)
      ensures RestoredFrom(repositories, records, now, jitter)
      ensures forall n :: n in repositoriesByName <==> n in LoadedNames(records)
      ensures messages == (match LoadNotice(records) case None => [] case Some(t) => [Message(t, ErrorMessage, 0)])
      ensures nextMessageId == |messages|
      ensures Distinct(LoadedNames(records)) ==> Valid()
      ensures debug == old(debug)
    {
      var hadErrors := RestoreAll(records, now, jitter);
      NamedIndicesEmpty(records);
      LoadedNamesAt(records);
      if hadErrors {
        var notice := if |repositories| > 0 then LOAD_SOME_FAILED else LOAD_FAILED;
        var _ := AddMessage(notice, ErrorMessage);
      }
      UniqueDistinct(LoadedNames(records));
    }

    /**
     * The `forEach` over the parsed records: restore each named one and
     * report whether any record had no name. Starts from the empty state
     * `data()` sets up.
     */
    method RestoreAll(records: seq<StoredRecord>, now: int, jitter: nat -> real) returns (hadErrors: bool)
      requires repositories == [] && repositoriesByName == map[]
      modifies this
      ensures hadErrors == SomeUnnamed(records)
      ensures Names(repositories) == LoadedNames(records)
      ensures RestoredFrom(repositories, records, now, jitter)
      ensures forall n :: n in repositoriesByName <==> n in LoadedNames(records)
      ensures Unique(LoadedNames(records)) ==> Consistent(repositories, repositoriesByName)
      ensures messages == old(messages) && nextMessageId == old(nextMessageId) && debug == old(debug)
    {
      hadErrors := false;
      var i := 0;
      while i < |records|
        invariant 0 <= i <= |records|
        invariant hadErrors == SomeUnnamed(records[..i])
        invariant Names(repositories) == LoadedNames(records[..i])
        invariant RestoredFrom(repositories, records[..i], now, jitter)
        invariant forall n :: n in repositoriesByName <==> n in Names(repositories)
        invariant Unique(Names(repositories)) ==> Consistent(repositories, repositoriesByName)
        invariant messages == old(messages) && nextMessageId == old(nextMessageId) && debug == old(debug)
      {
        var restored := RestoreNext(records, i, now, jitter);
        hadErrors := hadErrors || !restored;
        i := i + 1;
      }
      assert records[..i] == records;
    }

    /**
     * One pass of the `forEach` in `beforeMount`: restore record `i` after
     * the records before it.
     */
    method RestoreNext(records: seq<StoredRecord>, i: nat, now: int, jitter: nat -> real) returns (restored: bool)
      requires i < |records|
      requires Names(repositories) == LoadedNames(records[..i])
      requires RestoredFrom(repositories, records[..i], now, jitter)
      requires forall n :: n in repositoriesByName <==> n in Names(repositories)
      requires Unique(Names(repositories)) ==> Consistent(repositories, repositoriesByName)
      modifies this
      ensures restored == records[i].name.Some?
      ensures SomeUnnamed(records[..i + 1]) == (SomeUnnamed(records[..i]) || !restored)
      ensures Names(repositories) == LoadedNames(records[..i + 1])
      ensures RestoredFrom(repositories, records[..i + 1], now, jitter)
      ensures forall n :: n in repositoriesByName <==> n in Names(repositories)
      ensures Unique(Names(repositories)) ==> Consistent(repositories, repositoriesByName)
      ensures messages == old(messages) && nextMessageId == old(nextMessageId) && debug == old(debug)
    {
      LoadStep(records, i);
      ghost var was := repositories;
      restored := RestoreRecord(records[i], now, jitter(i));
      assert records[..i + 1][..i] == records[..i];
      if restored {
        assert repositories[..|was|] == was;
      }
    }

    /**
     * The `forEach` callback of `beforeMount` for one record: a record with
     * a name has its timer and next update date cleared, is tracked and is
     * scheduled; a record without one is only reported.
     */
    method RestoreRecord(record: StoredRecord, now: int, jitter: real) returns (restored: bool)
      requires forall n :: n in repositoriesByName <==> n in Names(repositories)
      requires Unique(Names(repositories)) ==> Consistent(repositories, repositoriesByName)
      modifies this
      ensures restored == record.name.Some?
      ensures Names(repositories) == Names(old(repositories)) + (if restored then [record.name.value] else [])
      ensures !restored ==> repositories == old(repositories) && repositoriesByName == old(repositoriesByName)
      ensures restored ==>
        && |repositories| == |old(repositories)| + 1
        && repositories[..|old(repositories)|] == old(repositories)
        && fresh(repositories[|old(repositories)|])
        && Restored(repositories[|old(repositories)|], record, now, jitter)
      ensures forall n :: n in repositoriesByName <==> n in Names(repositories)
      ensures Unique(Names(repositories)) ==> Consistent(repositories, repositoriesByName)
      ensures messages == old(messages) && nextMessageId == old(nextMessageId) && debug == old(debug)
    {
      restored := record.name.Some?;
      if restored {
        var repository := new Repository.Restore(record.name.value, record.status, record.lastUpdatedDate);
        RestoredConsistent(repositories, repositoriesByName, repository);
        repositories := repositories + [repository];
        repositoriesByName := repositoriesByName[repository.name := repository];
        ScheduleNextRepositoryUpdate(repository, now, jitter);
      }
    }

    /**
     * `scheduleNextRepositoryUpdate`: replace any pending timer by one armed
     * with the delay rule's value, and record when it will fire.
     */
    method ScheduleNextRepositoryUpdate(repository: Repository, now: int, jitter: real)
      modifies repository
      ensures repository.timer == Some(PollDelay(old(repository.lastUpdatedDate), old(repository.status), now, jitter))
      ensures repository.nextUpdateDate == Some(NextUpdateDate(now, repository.timer.value))
      ensures repository.status == old(repository.status)
      ensures repository.lastUpdatedDate == old(repository.lastUpdatedDate)
    {
      var timeout := PollDelay(repository.lastUpdatedDate, repository.status, now, jitter);
      repository.timer := Some(timeout);
      repository.nextUpdateDate := Some(NextUpdateDate(now, timeout));
    }

    /**
     * `addMessage`: append the message under the next id and return the
     * delay after which it clears itself, if any.
     */
    method AddMessage(text: string, messageType: MessageType) returns (expiry: Option<nat>)
      modifies this
      ensures messages == old(messages) + [Message(text, messageType, old(nextMessageId))]
      ensures nextMessageId == old(nextMessageId) + 1
      ensures expiry == MessageExpiry(debug, messageType)
      ensures IncreasingIds(old(messages)) && IdsBelow(old(messages), old(nextMessageId)) ==>
        IncreasingIds(messages) && IdsBelow(messages, nextMessageId)
      ensures repositories == old(repositories) && repositoriesByName == old(repositoriesByName)
      ensures debug == old(debug)
    {
      var id := nextMessageId;
      nextMessageId := nextMessageId + 1;
      expiry := MessageExpiry(debug, messageType);
      messages := messages + [Message(text, messageType, id)];
    }

    /** `clearMessage`: take out the message with this id; other messages keep their order. */
    method ClearMessage(id: nat)
      requires Valid()
      modifies this
      ensures Valid()
      ensures messages == WithoutId(old(messages), id)
      ensures nextMessageId == old(nextMessageId) && debug == old(debug)
      ensures repositories == old(repositories) && repositoriesByName == old(repositoriesByName)
    {
      ghost var removed := false;
      var idx := 0;
      while idx < |messages|
        invariant 0 <= idx <= |old(messages)| && |messages| <= |old(messages)|
        invariant nextMessageId == old(nextMessageId) && debug == old(debug)
        invariant repositories == old(repositories) && repositoriesByName == old(repositoriesByName)
        invariant !removed ==> messages == old(messages) && forall j :: 0 <= j < idx ==> messages[j].id != id
        invariant removed ==> messages == WithoutId(old(messages), id)
        invariant removed ==> forall j :: 0 <= j < |messages| ==> messages[j].id != id
        decreases |old(messages)| - idx
      {
        if messages[idx].id == id {
          WithoutIdAt(messages, idx);
          WithoutIdMembers(messages, id);
          messages := messages[..idx] + messages[idx + 1..];
          removed := true;
          forall j | 0 <= j < |messages| ensures messages[j].id != id {
            assert messages[j] in WithoutId(old(messages), id);
          }
        }
        idx := idx + 1;
      }
      if !removed {
        WithoutIdAbsent(messages, id);
      }
      WithoutIdIncreasing(old(messages), id);
      WithoutIdMembers(old(messages), id);
      forall j | 0 <= j < |messages| ensures messages[j].id < nextMessageId {
        assert messages[j] in old(messages);
      }
    }

    /** The debug button: flip the flag. */
    method ToggleDebug()
      modifies this
      ensures debug == !old(debug)
      ensures messages == old(messages) && nextMessageId == old(nextMessageId)
      ensures repositories == old(repositories) && repositoriesByName == old(repositoriesByName)
    {
      debug := !debug;
    }

    /**
     * The `forEach` callback of `addRepositories` for one name: log an error
     * when it is already tracked, otherwise track a new record of that name,
     * schedule its first update right away and log the success.
     */
    method AddRepository(name: string, now: int)
      requires Valid()
      modifies this
      ensures Valid()
      ensures Names(repositories) == AddOne(old(Names(repositories)), name)
      ensures name in old(repositoriesByName) ==> repositories == old(repositories)
      ensures name !in old(repositoriesByName) ==>
        && |repositories| == |old(repositories)| + 1
        && repositories[..|old(repositories)|] == old(repositories)
        && var r := repositories[|old(repositories)|];
           fresh(r) && JustAdded(r, now)
      ensures messages == old(messages) + [AddNotice(old(Names(repositories)), name, old(nextMessageId))]
      ensures nextMessageId == old(nextMessageId) + 1
      ensures debug == old(debug)
    {
      TrackedByName(repositories, repositoriesByName, name);
      if name in repositoriesByName {
        var _ := AddMessage("Repository " + name + " already exists", ErrorMessage);
      } else {
        var repository := new Repository(name);
        AppendedConsistent(repositories, repositoriesByName, repository);
        repositories := repositories + [repository];
        repositoriesByName := repositoriesByName[name := repository];
        ScheduleNextRepositoryUpdate(repository, now, 0.0);
        var _ := AddMessage("Repository " + name + " added", SuccessMessage);
      }
    }

    /**
     * `addRepositories`: split the input on whitespace and add the pieces
     * one by one.
     */
    method AddRepositories(names: string, now: int)
      requires Valid()
      modifies this
      ensures Valid()
      ensures Names(repositories) == AddAll(old(Names(repositories)), Split(names))
      ensures |old(repositories)| <= |repositories| && repositories[..|old(repositories)|] == old(repositories)
      ensures forall i :: |old(repositories)| <= i < |repositories| ==> JustAdded(repositories[i], now)
      ensures messages == old(messages) + AddNotices(old(Names(repositories)), Split(names), old(nextMessageId))
      ensures nextMessageId == old(nextMessageId) + |Split(names)|
      ensures debug == old(debug)
    {
      var tokens := Split(names);
      AddEach(tokens, now);
    }

    /**
     * The `forEach` over the pieces of the input: each piece is checked
     * against the names tracked before it, including earlier pieces.
     */
    method AddEach(tokens: seq<string>, now: int)
      requires Valid()
      modifies this
      ensures Valid()
      ensures Names(repositories) == AddAll(old(Names(repositories)), tokens)
      ensures |old(repositories)| <= |repositories| && repositories[..|old(repositories)|] == old(repositories)
      ensures forall i :: |old(repositories)| <= i < |repositories| ==> JustAdded(repositories[i], now)
      ensures messages == old(messages) + AddNotices(old(Names(repositories)), tokens, old(nextMessageId))
      ensures nextMessageId == old(nextMessageId) + |tokens|
      ensures debug == old(debug)
    {
      ghost var before := Names(repositories);
      var i := 0;
      while i < |tokens|
        invariant 0 <= i <= |tokens|
        invariant Valid()
        invariant Names(repositories) == AddAll(before, tokens[..i])
        invariant |old(repositories)| <= |repositories| && repositories[..|old(repositories)|] == old(repositories)
        invariant forall j :: |old(repositories)| <= j < |repositories| ==> JustAdded(repositories[j], now)
        invariant messages == old(messages) + AddNotices(before, tokens[..i], old(nextMessageId))
        invariant nextMessageId == old(nextMessageId) + i
        invariant debug == old(debug)
      {
        AddNext(before, tokens, i, old(repositories), old(messages), old(nextMessageId), now);
        i := i + 1;
      }
      assert tokens[..i] == tokens;
    }

    /**
     * One pass of the `forEach` in `addRepositories`: add token `i` and keep
     * the batch's account of names, entries and messages.
     */
    method AddNext(ghost before: seq<string>, tokens: seq<string>, i: nat, ghost kept: seq<Repository>,
                   ghost initial: seq<Message>, ghost firstId: nat, now: int)
      requires i < |tokens|
      requires Valid()
      requires Names(repositories) == AddAll(before, tokens[..i])
      requires |kept| <= |repositories| && repositories[..|kept|] == kept
      requires forall j :: |kept| <= j < |repositories| ==> JustAdded(repositories[j], now)
      requires messages == initial + AddNotices(before, tokens[..i], firstId)
      requires nextMessageId == firstId + i
      modifies this
      ensures Valid()
      ensures Names(repositories) == AddAll(before, tokens[..i + 1])
      ensures |kept| <= |repositories| && repositories[..|kept|] == kept
      ensures forall j :: |kept| <= j < |repositories| ==> JustAdded(repositories[j], now)
      ensures messages == initial + AddNotices(before, tokens[..i + 1], firstId)
      ensures nextMessageId == firstId + i + 1
      ensures debug == old(debug)
    {
      ghost var was := repositories;
      ghost var logged := messages;
      ghost var tracked := Names(repositories);
      AddRepository(tokens[i], now);
      AddStep(before, tokens, i, initial, firstId, tracked, Names(repositories), logged, messages, firstId + i);
      forall j | |kept| <= j < |repositories| ensures JustAdded(repositories[j], now) {
        if j < |was| {
          assert repositories[j] == was[j];
        }
      }
      assert repositories[..|kept|] == was[..|kept|];
    }

    /**
     * `removeRepository`: cut the first entry of that name out of the list
     * and delete its key; nothing happens when the name is not tracked. The
     * pending timer is left alone.
     */
    method RemoveRepository(name: string)
      requires Valid()
      modifies this
      ensures Valid()
      ensures repositories == RemoveNamed(old(repositories), name)
      ensures repositoriesByName == old(repositoriesByName) - {name}
      ensures messages == old(messages) && nextMessageId == old(nextMessageId) && debug == old(debug)
    {
      var idx := 0;
      while idx < |repositories|
        invariant 0 <= idx <= |repositories|
        invariant repositories == old(repositories) && repositoriesByName == old(repositoriesByName)
        invariant forall j :: 0 <= j < idx ==> repositories[j].name != name
      {
        if repositories[idx].name == name {
          RemoveFirstNamed(repositories, repositoriesByName, name, idx);
          repositories := repositories[..idx] + repositories[idx + 1..];
          repositoriesByName := repositoriesByName - {name};
          return;
        }
        idx := idx + 1;
      }
      RemoveUntracked(repositories, repositoriesByName, name);
    }

    /**
     * `updateRepository`, once the fetch has settled: ignored for a name no
     * longer tracked; otherwise the attempt time is recorded, a fetched list
     * of runs is reconciled into the status and a failed fetch is logged, the
     * next update is scheduled and the list is re-sorted for display.
     * `startedAt` is the time of the attempt and `finishedAt` the time the
     * fetch settled.
     */
    method UpdateRepository(name: string, startedAt: int, fetched: FetchResult, finishedAt: int, jitter: real)
      requires Valid()
      modifies this, if name in repositoriesByName then {repositoriesByName[name]} else {}
      ensures Valid()
      ensures name !in old(repositoriesByName) ==> unchanged(this)
      ensures name in old(repositoriesByName) ==>
        var r := old(repositoriesByName[name]);
        && r.lastUpdatedDate == Some(startedAt)
        && r.status == (if fetched.Fetched? then Runs.Reconciled(old(r.status), fetched.runs) else old(r.status))
        && r.timer == Some(PollDelay(Some(startedAt), r.status, finishedAt, jitter))
        && r.nextUpdateDate == Some(NextUpdateDate(finishedAt, r.timer.value))
        && repositories == DisplayOrder(old(repositories))
        && repositoriesByName == old(repositoriesByName)
        && messages == old(messages) +
             (if fetched.FetchFailed? then [Message("updating repository failed" + fetched.error, ErrorMessage, old(nextMessageId))] else [])
        && nextMessageId == |messages| - |old(messages)| + old(nextMessageId)
        && debug == old(debug)
    {
      if name !in repositoriesByName {
        return;
      }
      var repository: Repository := repositoriesByName[name];
      repository.lastUpdatedDate := Some(startedAt);
      match fetched {
        case FetchFailed(error) =>
          var _ := AddMessage("updating repository failed" + error, ErrorMessage);
        case Fetched(runs) =>
          repository.Reconcile(runs);
      }
      ScheduleNextRepositoryUpdate(repository, finishedAt, jitter);
      SortRepositories();
    }

    /** `this.repositories.sort(...)`: the list takes its display order; the keys stay. */
    method SortRepositories()
      requires Valid()
      modifies this
      ensures Valid()
      ensures repositories == DisplayOrder(old(repositories))
      ensures repositoriesByName == old(repositoriesByName)
      ensures messages == old(messages) && nextMessageId == old(nextMessageId) && debug == old(debug)
    {
      DisplayOrderConsistent(repositories, repositoriesByName);
      repositories := DisplayOrder(repositories);
    }
  }

  /**
   * One more token of a batch: the names and the messages after adding it
   * are those of the batch extended by that token.
   */
  lemma AddStep(names: seq<string>, tokens: seq<string>, i: nat, initial: seq<Message>, id: nat,
                tracked: seq<string>, tracked': seq<string>, logged: seq<Message>, logged': seq<Message>, next: nat)
    requires i < |tokens|
    requires tracked == AddAll(names, tokens[..i]) && tracked' == AddOne(tracked, tokens[i])
    requires logged == initial + AddNotices(names, tokens[..i], id) && next == id + i
    requires logged' == logged + [AddNotice(tracked, tokens[i], next)]
    ensures tracked' == AddAll(names, tokens[..i + 1])
    ensures logged' == initial + AddNotices(names, tokens[..i + 1], id)
  {
    assert tokens[..i + 1][..i] == tokens[..i];
  }

  /** In a consistent state a name is a key of the map exactly when it is in the list. */
  lemma TrackedByName(rs: seq<Repository>, byName: map<string, Repository>, name: string)
    requires Consistent(rs, byName)
    ensures name in byName <==> name in Names(rs)
  {
    if name in Names(rs) {
      var i :| 0 <= i < |rs| && Names(rs)[i] == name;
    }
  }

  /** Appending a repository under a new name, and keying it by that name, stays consistent. */
  lemma AppendedConsistent(rs: seq<Repository>, byName: map<string, Repository>, r: Repository)
    requires Consistent(rs, byName) && r.name !in byName
    ensures Names(rs + [r]) == Names(rs) + [r.name]
    ensures Consistent(rs + [r], byName[r.name := r])
  {
    var t := rs + [r];
    assert Names(t) == Names(rs) + [r.name];
    forall i | 0 <= i < |rs| ensures rs[i].name != r.name {
    }
    UniqueDistinct(Names(rs));
    UniqueDistinct(Names(t));
  }

  /** The splice `removeRepository` performs at the first entry named `name` is `RemoveNamed`. */
  lemma RemoveFirstNamed(rs: seq<Repository>, byName: map<string, Repository>, name: string, idx: nat)
    requires Consistent(rs, byName)
    requires idx < |rs| && rs[idx].name == name
    requires forall j :: 0 <= j < idx ==> rs[j].name != name
    ensures rs[..idx] + rs[idx + 1..] == RemoveNamed(rs, name)
    ensures Consistent(rs[..idx] + rs[idx + 1..], byName - {name})
  {
    RemoveNamedAt(rs, name, idx);
    RemovedConsistent(rs, byName, name);
  }

  /** When no entry has that name, there is nothing to cut and no key to delete. */
  lemma RemoveUntracked(rs: seq<Repository>, byName: map<string, Repository>, name: string)
    requires Consistent(rs, byName)
    requires forall j :: 0 <= j < |rs| ==> rs[j].name != name
    ensures RemoveNamed(rs, name) == rs
    ensures byName - {name} == byName
  {
    RemoveNamedAbsent(rs, name);
    assert name !in Names(rs);
  }

  /** Cutting one named entry out of the list and its key out of the map keeps them consistent. */
  lemma RemovedConsistent(rs: seq<Repository>, byName: map<string, Repository>, name: string)
    requires Consistent(rs, byName)
    ensures Consistent(RemoveNamed(rs, name), byName - {name})
  {
    var r := RemoveNamed(rs, name);
    UniqueDistinct(Names(rs));
    RemoveNamedNames(rs, name);
    RemoveNamedMembers(rs, name);
    forall i | 0 <= i < |r| ensures r[i].name in byName - {name} && (byName - {name})[r[i].name] == r[i] {
      assert Names(r)[i] == r[i].name;
      assert r[i] in rs;
    }
    UniqueDistinct(Names(r));
  }

  lemma RemoveNamedMembers(rs: seq<Repository>, name: string)
    ensures forall x :: x in RemoveNamed(rs, name) ==> x in rs
  {
    if rs != [] {
      RemoveNamedMembers(rs[1..], name);
    }
  }
}
