// The last five chat messages in a ring, and what a client that polls with a
// cursor gets to see of all the messages ever posted.

module ChatRing {
  import opened Common

  const MAX_MESSAGES := 5

  datatype Message = Message(id: int, user: string, text: string, timestamp: int)

  // ---------- What the ring shows of the log -----------------------------------

  // Message k of the log has number k, and a time, which is never 0.
  predicate Numbered(log: seq<Message>) {
    forall k | 0 <= k < |log| :: log[k].id == k && log[k].timestamp != 0
  }

  // The first message that a client with cursor c is shown after n messages.
  function First(n: nat, c: int): (k: int) {
    if n - c > MAX_MESSAGES then n - MAX_MESSAGES else c
  }

  // A cursor that does not lead the loop out of the ring.
  predicate InRange(n: nat, c: int) {
    c >= 0 || n >= MAX_MESSAGES || (n == 0 && c <= -MAX_MESSAGES)
  }

  // All from the cursor on, or the last five of them.
  function Shown(log: seq<Message>, c: int): (ms: seq<Message>)
    requires InRange(|log|, c)
  {
    if log == [] || First(|log|, c) >= |log| then [] else log[First(|log|, c)..]
  }

  // The remainder as C takes it, with the sign of the dividend.
  function Remainder(k: int): (r: int) {
    if k >= 0 then k % MAX_MESSAGES else -((-k) % MAX_MESSAGES)
  }

  // The loop of a query from message k on reads slots of the ring only.
  ghost predicate StaysInRing(slots: seq<Message>, k: int, n: nat)
    requires |slots| == MAX_MESSAGES
    decreases n - k
  {
    k < n ==>
      && 0 <= Remainder(k)
      && (slots[Remainder(k)].timestamp != 0 ==> StaysInRing(slots, k + 1, n))
  }

  class Chat {
    const messages: array<Message>
    var lastMessageId: nat

    ghost var log: seq<Message>

    // Slot k mod 5 holds message k for each of the last five messages.
    ghost predicate Valid()
      reads this, messages
    {
      && messages.Length == MAX_MESSAGES && lastMessageId == |log| && Numbered(log)
      && (forall k | Max(0, |log| - MAX_MESSAGES) <= k < |log| :: messages[k % MAX_MESSAGES] == log[k])
      && (forall k | |log| <= k < MAX_MESSAGES :: messages[k].timestamp == 0)
    }

    constructor ()
      ensures Valid() && log == [] && fresh(messages)
    {
      messages := new Message[MAX_MESSAGES](i => Message(0, "", "", 0));
      lastMessageId := 0;
      log := [];
    }

    // Take the next slot.  What the old message left in the other fields
    // stays until the caller, who holds the lock, overwrites it.
    method NewMessage(now: int) returns (slot: nat)
      requires messages.Length == MAX_MESSAGES
      modifies this`lastMessageId, messages
      ensures slot == old(lastMessageId) % MAX_MESSAGES && lastMessageId == old(lastMessageId) + 1
      ensures messages[slot] == old(messages[slot]).(id := old(lastMessageId), timestamp := now)
      ensures forall k | 0 <= k < MAX_MESSAGES && k != slot :: messages[k] == old(messages[k])
    {
      slot := lastMessageId % MAX_MESSAGES;
      messages[slot] := messages[slot].(id := lastMessageId);
      lastMessageId := lastMessageId + 1;
      messages[slot] := messages[slot].(timestamp := now);
    }

    method Post(user: string, text: string, now: int)
      requires Valid() && now != 0
      modifies this, messages
      ensures Valid() && log == old(log) + [Message(|old(log)|, user, text, now)]
    {
      var slot := NewMessage(now);
      messages[slot] := messages[slot].(text := text);
      messages[slot] := messages[slot].(user := user);
      log := log + [Message(|log|, user, text, now)];
    }

    lemma InNumbers()
      requires Valid()
      ensures lastMessageId == |log|
    {
    }

    // What the query reads at a place it may come to.
    lemma SlotOf(k: int)
      requires Valid() && k < lastMessageId == |log|
      requires if lastMessageId == 0 then k == -MAX_MESSAGES else Max(0, |log| - MAX_MESSAGES) <= k
      ensures messages.Length == MAX_MESSAGES && 0 <= Remainder(k) < MAX_MESSAGES
      ensures if lastMessageId == 0 then messages[Remainder(k)].timestamp == 0
              else messages[Remainder(k)] == log[k] && log[k].timestamp != 0
    {
    }

    // Exactly which cursors keep the loop of a query inside the ring.
    lemma StaysInRingIff(c: int)
      requires Valid()
      ensures StaysInRing(messages[..], First(lastMessageId, c), lastMessageId) <==> InRange(lastMessageId, c)
    {
      var k := First(lastMessageId, c);
      if k >= 0 {
        FromNumber(messages[..], k, lastMessageId);
      } else if lastMessageId == 0 {
        assert messages[..][0].timestamp == 0;
      } else {
        assert -MAX_MESSAGES < k;
      }
    }

    method MessagesFrom(cursor: int) returns (shown: seq<Message>)
      requires Valid() && InRange(lastMessageId, cursor)
      ensures shown == Shown(log, cursor)
    {
      InNumbers();
      StartsInRange(lastMessageId, cursor);
      hide *;
      shown := [];
      var lastId := cursor;
      if lastMessageId - lastId > MAX_MESSAGES {
        lastId := lastMessageId - MAX_MESSAGES;
      }
      ghost var first := lastId;
      NoneTaken(log, first);
      while lastId < lastMessageId
        invariant first <= lastId && (first < lastMessageId ==> lastId <= lastMessageId)
        invariant lastMessageId == 0 || first >= lastMessageId ==> lastId == first
        invariant shown == Taken(log, first, lastId)
      {
        SlotOf(lastId);
        var message := messages[Remainder(lastId)];
        if message.timestamp == 0 {
          break;
        }
        OneTaken(log, first, lastId);
        shown := shown + [message];
        lastId := lastId + 1;
      }
      AllTaken(log, cursor, first, lastId);
    }
  }

  // Where the loop of a query begins.
  lemma StartsInRange(n: nat, c: int)
    requires InRange(n, c)
    ensures First(n, c) == if n - c > MAX_MESSAGES then n - MAX_MESSAGES else c
    ensures n - MAX_MESSAGES <= First(n, c)
    ensures First(n, c) < n ==> if n == 0 then First(n, c) == -MAX_MESSAGES else 0 <= First(n, c)
  {
  }

  // The messages from one number up to another.
  function Taken(log: seq<Message>, first: int, to: int): (ms: seq<Message>) {
    if 0 <= first <= to <= |log| then log[first..to] else []
  }

  lemma NoneTaken(log: seq<Message>, first: int)
    ensures Taken(log, first, first) == []
  {
  }

  lemma OneTaken(log: seq<Message>, first: int, to: int)
    requires 0 <= first <= to < |log|
    ensures Taken(log, first, to + 1) == Taken(log, first, to) + [log[to]]
  {
  }

  lemma AllTaken(log: seq<Message>, c: int, first: int, to: int)
    requires InRange(|log|, c) && first == First(|log|, c) <= to
    requires if log != [] && first < |log| then to == |log| else true
    requires log == [] || first >= |log| ==> to == first
    ensures Shown(log, c) == Taken(log, first, to)
  {
  }

  lemma {:induction false} FromNumber(slots: seq<Message>, k: int, n: nat)
    requires |slots| == MAX_MESSAGES && k >= 0
    ensures StaysInRing(slots, k, n)
    decreases n - k
  {
    if k < n {
      FromNumber(slots, k + 1, n);
    }
  }

  // One message posted and a cursor of -3: the loop would read slot -3.
  lemma NegativeSlot()
    ensures !InRange(1, -3) && First(1, -3) == -3 && Remainder(-3) == -3
  {
  }

  // ---------- A client that polls --------------------------------------------------

  // The page keeps as its cursor one more than the larger of the cursor and
  // the number of each message it gets.
  function NextCursor(got: seq<Message>, c: int): (n: int) {
    if got == [] then c else NextCursor(got[1..], Max(c, got[0].id) + 1)
  }

  lemma {:induction false} CursorBehindRun(log: seq<Message>, k: nat, c: int)
    requires Numbered(log) && c <= k < |log|
    ensures NextCursor(log[k..], c) == |log|
    decreases |log| - k
  {
    assert log[k..][1..] == log[k + 1..];
    if k + 1 < |log| {
      CursorBehindRun(log, k + 1, k + 1);
    }
  }

  // One poll brings the cursor to the end of the log, whatever it was.
  lemma CursorAtTheEnd(log: seq<Message>, c: nat)
    requires Numbered(log) && c <= |log|
    ensures NextCursor(Shown(log, c), c) == |log|
  {
    if First(|log|, c) < |log| {
      CursorBehindRun(log, First(|log|, c), c);
    }
  }

  // Polls made when the log had these lengths.
  predicate Ascending(marks: seq<nat>, from: nat, to: nat) {
    if marks == [] then from <= to else from <= marks[0] <= to && Ascending(marks[1..], marks[0], to)
  }

  // All that a client with cursor c receives in these polls.
  function Received(log: seq<Message>, marks: seq<nat>, c: nat): (ms: seq<Message>)
    requires Numbered(log) && Ascending(marks, c, |log|)
    decreases |marks|
  {
    if marks == [] then []
    else
      var got := Shown(log[..marks[0]], c);
      CursorAtTheEnd(log[..marks[0]], c);
      got + Received(log, marks[1..], NextCursor(got, c))
  }

  // Messages of the log, in its order and each at most once.
  ghost predicate InOrder(log: seq<Message>, ms: seq<Message>, from: int, to: int)
    requires 0 <= from <= to <= |log|
  {
    && (forall i | 0 <= i < |ms| :: from <= ms[i].id < to && ms[i] == log[ms[i].id])
    && (forall i, j | 0 <= i < j < |ms| :: ms[i].id < ms[j].id)
  }

  lemma {:induction false} NeverRepeats(log: seq<Message>, marks: seq<nat>, c: nat)
    requires Numbered(log) && Ascending(marks, c, |log|)
    ensures InOrder(log, Received(log, marks, c), c, |log|)
    decreases |marks|
  {
    if marks != [] {
      var m := marks[0];
      CursorAtTheEnd(log[..m], c);
      NeverRepeats(log, marks[1..], m);
      ShownInOrder(log, c, m);
      hide InOrder, Shown;
      Joined(log, Shown(log[..m], c), Received(log, marks[1..], m), c, m);
    }
  }

  lemma ShownInOrder(log: seq<Message>, c: nat, m: nat)
    requires Numbered(log) && c <= m <= |log|
    ensures InOrder(log, Shown(log[..m], c), c, m)
  {
    var k := First(m, c);
    assert k < m ==> log[..m][k..] == log[k..m];
  }

  lemma Joined(log: seq<Message>, a: seq<Message>, b: seq<Message>, c: nat, m: nat)
    requires c <= m <= |log| && InOrder(log, a, c, m) && InOrder(log, b, m, |log|)
    ensures InOrder(log, a + b, c, |log|)
  {
  }

  // At most five messages came between one poll and the next.
  predicate NoBurst(marks: seq<nat>, from: nat) {
    marks != [] ==> marks[0] - from <= MAX_MESSAGES && NoBurst(marks[1..], marks[0])
  }

  function Last(marks: seq<nat>, from: nat): (n: nat) {
    if marks == [] then from else marks[|marks| - 1]
  }

  // Nothing is missed exactly when there was no burst.
  lemma {:induction false} MissesNothingIff(log: seq<Message>, marks: seq<nat>, c: nat)
    requires Numbered(log) && Ascending(marks, c, |log|)
    ensures c <= Last(marks, c) <= |log|
    ensures |Received(log, marks, c)| <= Last(marks, c) - c
    ensures Received(log, marks, c) == log[c..Last(marks, c)] <==> NoBurst(marks, c)
    decreases |marks|
  {
    if marks != [] {
      var m := marks[0];
      CursorAtTheEnd(log[..m], c);
      MissesNothingIff(log, marks[1..], m);
      assert Last(marks, c) == Last(marks[1..], m);
      OnePoll(log, c, m, Last(marks, c), Shown(log[..m], c), Received(log, marks[1..], m));
    }
  }

  lemma OnePoll(log: seq<Message>, c: nat, m: nat, end: nat, got: seq<Message>, rest: seq<Message>)
    requires c <= m <= end <= |log| && got == Shown(log[..m], c) && |rest| <= end - m
    ensures |got + rest| <= end - c
    ensures got + rest == log[c..end] <==> m - c <= MAX_MESSAGES && rest == log[m..end]
  {
    assert log[c..end] == log[c..m] + log[m..end];
    assert m - c <= MAX_MESSAGES ==> got == log[c..m];
    if got + rest == log[c..end] && |got| == m - c {
      assert rest == (got + rest)[|got|..] == log[c..end][|got|..];
    }
  }

  // Six messages at once: a client that has seen none is not shown the first.
  lemma BurstLosesTheFirst(log: seq<Message>)
    requires Numbered(log) && |log| == 6
    ensures Received(log, [6], 0) == log[1..] && !NoBurst([6], 0)
  {
    CursorAtTheEnd(log, 0);
    assert log[..6] == log && [6][1..] == [];
    assert Received(log, [6][1..], 6) == [];
  }
}
