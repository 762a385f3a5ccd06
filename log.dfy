/**
 * The notification log: messages carry an id taken from a counter and are
 * removed by id. Auto-expiry is represented by the delay it would be
 * armed with.
 */
module Log {
  import opened Wrappers

  /** The `type` strings passed to `addMessage`: 'success' and 'error'. */
  datatype MessageType = SuccessMessage | ErrorMessage

  datatype Message = Message(text: string, messageType: MessageType, id: nat)

  /** Ids strictly increase along the log. */
  predicate IncreasingIds(ms: seq<Message>) {
    forall i, j :: 0 <= i < j < |ms| ==> ms[i].id < ms[j].id
  }

  /** Every id in the log was issued before the counter reached `next`. */
  predicate IdsBelow(ms: seq<Message>, next: nat) {
    forall i :: 0 <= i < |ms| ==> ms[i].id < next
  }

  /**
   * The delay after which a new message clears itself: 2 s for a success
   * message, 5 s for any other, never while debugging.
   */
  function MessageExpiry(debug: bool, messageType: MessageType): Option<nat> {
    if debug then None
    else if messageType == SuccessMessage then Some(2000)
    else Some(5000)
  }

  /** The log with every message of id `id` taken out, the rest in order. */
  function WithoutId(ms: seq<Message>, id: nat): seq<Message> {
    if ms == [] then []
    else (if ms[0].id == id then [] else [ms[0]]) + WithoutId(ms[1..], id)
  }

  /** A message stays exactly when its id differs from the one cleared. */
  lemma {:induction false} WithoutIdMembers(ms: seq<Message>, id: nat)
    ensures forall m :: m in WithoutId(ms, id) <==> m in ms && m.id != id
  {
    if ms != [] {
      WithoutIdMembers(ms[1..], id);
      assert ms == [ms[0]] + ms[1..];
    }
  }

  /** Clearing an id that is not in the log changes nothing. */
  lemma {:induction false} WithoutIdAbsent(ms: seq<Message>, id: nat)
    requires forall i :: 0 <= i < |ms| ==> ms[i].id != id
    ensures WithoutId(ms, id) == ms
  {
    if ms != [] {
      WithoutIdAbsent(ms[1..], id);
      assert ms == [ms[0]] + ms[1..];
    }
  }

  /** Clearing the same id twice is the same as clearing it once. */
  lemma {:induction false} WithoutIdIdempotent(ms: seq<Message>, id: nat)
    ensures WithoutId(WithoutId(ms, id), id) == WithoutId(ms, id)
  {
    WithoutIdMembers(ms, id);
    WithoutIdAbsentByMembers(WithoutId(ms, id), id);
  }

  lemma WithoutIdAbsentByMembers(ms: seq<Message>, id: nat)
    requires forall m :: m in ms ==> m.id != id
    ensures WithoutId(ms, id) == ms
  {
    forall i | 0 <= i < |ms| ensures ms[i].id != id {
      assert ms[i] in ms;
    }
    WithoutIdAbsent(ms, id);
  }

  lemma WithoutIdAppend(a: seq<Message>, b: seq<Message>, id: nat)
    ensures WithoutId(a + b, id) == WithoutId(a, id) + WithoutId(b, id)
  {
    if a == [] {
      assert a + b == b;
    } else {
      WithoutIdAppend(a[1..], b, id);
      assert (a + b)[1..] == a[1..] + b;
    }
  }

  /**
   * In a log with increasing ids, clearing the id held at position `p`
   * removes exactly that position.
   */
  lemma {:induction false} WithoutIdAt(ms: seq<Message>, p: nat)
    requires IncreasingIds(ms)
    requires p < |ms|
    ensures WithoutId(ms, ms[p].id) == ms[..p] + ms[p + 1..]
  {
    var id := ms[p].id;
    var before, after := ms[..p], ms[p + 1..];
    assert ms == before + ([ms[p]] + after);
    WithoutIdAbsent(before, id);
    WithoutIdAbsent(after, id);
    assert WithoutId([ms[p]] + after, id) == after by {
      assert ([ms[p]] + after)[1..] == after;
    }
    WithoutIdAppend(before, [ms[p]] + after, id);
  }

  /** Removing messages keeps the ids increasing. */
  lemma {:induction false} WithoutIdIncreasing(ms: seq<Message>, id: nat)
    requires IncreasingIds(ms)
    ensures IncreasingIds(WithoutId(ms, id))
  {
    if ms != [] {
      WithoutIdIncreasing(ms[1..], id);
      WithoutIdMembers(ms[1..], id);
      var rest := WithoutId(ms[1..], id);
      forall j | 0 <= j < |rest| ensures ms[0].id < rest[j].id {
        assert rest[j] in ms[1..];
      }
    }
  }
}
