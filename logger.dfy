/** The application logger: a registry of callbacks that never holds one twice,
    and log entries "[<level>] <time>: <message>" that go to the console and then
    to every registered callback in registration order. Callbacks are compared by
    value, as Python's `in` and list.remove compare them. */
module Logging {

  /** One call of a registered callback with the entry it was given. */
  datatype Delivery<C> = Delivery(callback: C, entry: string)

  predicate NoDuplicates<C(==)>(s: seq<C>)
  {
    forall i, j :: 0 <= i < j < |s| ==> s[i] != s[j]
  }

  // ---------------------------------------------------------------------------
  // Entries
  // ---------------------------------------------------------------------------

  /** The text of one log entry; the time is the already formatted timestamp. */
  function Entry(level: string, time: string, message: string): (entry: string)
    ensures |entry| == |level| + |time| + |message| + 5
    ensures entry[0] == '[' && entry[|level| + 1] == ']'
    ensures entry[1..|level| + 1] == level
    ensures entry[|entry| - |message|..] == message
  {
    "[" + level + "] " + time + ": " + message
  }

  /** The level of an entry: the text between the leading '[' and the first ']'. */
  function LevelOf(entry: string): string
  {
    if |entry| == 0 || entry[0] != '[' then "" else UpToBracket(entry[1..])
  }

  function UpToBracket(s: string): (r: string)
    ensures |r| <= |s| && r == s[..|r|] && ']' !in r
    decreases |s|
  {
    if s == [] || s[0] == ']' then "" else [s[0]] + UpToBracket(s[1..])
  }

  lemma {:induction false} UpToBracketOfPrefix(level: string, rest: string)
    requires ']' !in level
    ensures UpToBracket(level + "]" + rest) == level
    decreases |level|
  {
    if level == [] {
      assert (level + "]" + rest)[0] == ']';
    } else {
      assert (level + "]" + rest)[0] == level[0];
      assert (level + "]" + rest)[1..] == level[1..] + "]" + rest;
      UpToBracketOfPrefix(level[1..], rest);
      assert [level[0]] + level[1..] == level;
    }
  }

  /** The level can be read back from an entry whose level holds no ']'. */
  lemma LevelOfEntry(level: string, time: string, message: string)
    requires ']' !in level
    ensures LevelOf(Entry(level, time, message)) == level
  {
    var entry := Entry(level, time, message);
    var rest := " " + time + ": " + message;
    assert entry[1..] == level + "]" + rest;
    UpToBracketOfPrefix(level, rest);
  }

  /** Entries of different levels differ, whatever their time and message. */
  lemma EntryDistinguishesLevels(l1: string, l2: string, t1: string, t2: string, m1: string, m2: string)
    requires ']' !in l1 && ']' !in l2 && l1 != l2
    ensures Entry(l1, t1, m1) != Entry(l2, t2, m2)
  {
    LevelOfEntry(l1, t1, m1);
    LevelOfEntry(l2, t2, m2);
  }

  // ---------------------------------------------------------------------------
  // The registry as values
  // ---------------------------------------------------------------------------

  /** add_callback on the list: append when absent. */
  function WithCallback<C(==)>(callbacks: seq<C>, callback: C): seq<C>
  {
    if callback in callbacks then callbacks else callbacks + [callback]
  }

  /** list.remove: drop the first occurrence; callers only pass a present callback. */
  function WithoutCallback<C(==)>(callbacks: seq<C>, callback: C): seq<C>
    decreases |callbacks|
  {
    if callbacks == [] then []
    else if callbacks[0] == callback then callbacks[1..]
    else [callbacks[0]] + WithoutCallback(callbacks[1..], callback)
  }

  /** Adding keeps the list free of repeats, keeps what was there in its order,
      and appends only an absent callback, at the end. */
  lemma AddKeepsOrder<C>(callbacks: seq<C>, callback: C)
    requires NoDuplicates(callbacks)
    ensures var r := WithCallback(callbacks, callback);
      && NoDuplicates(r)
      && callback in r
      && r[..|callbacks|] == callbacks
      && |r| == if callback in callbacks then |callbacks| else |callbacks| + 1
  {
    var r := WithCallback(callbacks, callback);
    assert r[..|callbacks|] == callbacks;
  }

  /** Adding the same callback twice leaves the list of adding it once. */
  lemma AddIdempotent<C>(callbacks: seq<C>, callback: C)
    ensures WithCallback(WithCallback(callbacks, callback), callback) == WithCallback(callbacks, callback)
  {
  }

  /** The position of the first occurrence of a present callback. */
  ghost function FirstIndex<C>(callbacks: seq<C>, callback: C): (i: nat)
    requires callback in callbacks
    ensures i < |callbacks| && callbacks[i] == callback && callback !in callbacks[..i]
    decreases |callbacks|
  {
    if callbacks[0] == callback then 0
    else
      var i := FirstIndex(callbacks[1..], callback) + 1;
      assert callbacks[..i] == [callbacks[0]] + callbacks[1..][..i - 1];
      i
  }

  /** Removing takes out exactly the first occurrence and keeps the rest in order;
      an absent callback leaves the list as it is. */
  lemma {:induction false} RemoveFirst<C>(callbacks: seq<C>, callback: C)
    ensures callback !in callbacks ==> WithoutCallback(callbacks, callback) == callbacks
    ensures callback in callbacks ==> var i := FirstIndex(callbacks, callback);
      WithoutCallback(callbacks, callback) == callbacks[..i] + callbacks[i + 1..]
    decreases |callbacks|
  {
    if callbacks != [] && callbacks[0] != callback {
      var tail := callbacks[1..];
      RemoveFirst(tail, callback);
      assert callbacks == [callbacks[0]] + tail;
      if callback in callbacks {
        var i := FirstIndex(tail, callback);
        assert FirstIndex(callbacks, callback) == i + 1;
        assert callbacks[..i + 1] == [callbacks[0]] + tail[..i];
        assert callbacks[i + 2..] == tail[i + 1..];
      }
    }
  }

  /** On a list without repeats, removing leaves every other callback and only
      those, still without repeats. */
  lemma RemoveKeepsOthers<C>(callbacks: seq<C>, callback: C)
    requires NoDuplicates(callbacks)
    ensures var r := WithoutCallback(callbacks, callback);
      && NoDuplicates(r)
      && callback !in r
      && (forall c :: c in r <==> c in callbacks && c != callback)
  {
    RemoveFirst(callbacks, callback);
    if callback in callbacks {
      var i := FirstIndex(callbacks, callback);
      DropDistinct(callbacks, i);
      DropMembers(callbacks, i);
    }
  }

  /** Dropping one entry of a list without repeats leaves a list without repeats. */
  lemma DropDistinct<C>(s: seq<C>, i: nat)
    requires i < |s| && NoDuplicates(s)
    ensures NoDuplicates(s[..i] + s[i + 1..])
  {
    var r := s[..i] + s[i + 1..];
    forall a, b | 0 <= a < b < |r|
      ensures r[a] != r[b]
    {
      var a' := if a < i then a else a + 1;
      var b' := if b < i then b else b + 1;
      assert r[a] == s[a'] && r[b] == s[b'];
    }
  }

  /** Dropping the entry at i of a list without repeats leaves exactly the other
      values. */
  lemma DropMembers<C>(s: seq<C>, i: nat)
    requires i < |s| && NoDuplicates(s)
    ensures forall c :: c in s[..i] + s[i + 1..] <==> c in s && c != s[i]
  {
    var r := s[..i] + s[i + 1..];
    forall c
      ensures c in r <==> c in s && c != s[i]
    {
      if c in s && c != s[i] {
        var k :| 0 <= k < |s| && s[k] == c;
        if k < i {
          assert r[k] == c;
        } else {
          assert r[k - 1] == c;
        }
      }
      if c in r {
        var k :| 0 <= k < |r| && r[k] == c;
        var k' := if k < i then k else k + 1;
        assert s[k'] == c && k' != i;
      }
    }
  }

  /** Removing a callback just added restores the list. */
  lemma RemoveUndoesAdd<C>(callbacks: seq<C>, callback: C)
    requires callback !in callbacks
    ensures WithoutCallback(WithCallback(callbacks, callback), callback) == callbacks
  {
    var added := callbacks + [callback];
    RemoveFirst(added, callback);
    var i := FirstIndex(added, callback);
    assert added[..|callbacks|] == callbacks;
    assert i == |callbacks|;
  }

  // ---------------------------------------------------------------------------
  // Fan-out
  // ---------------------------------------------------------------------------

  /** The calls made for one entry: each callback in turn. */
  function FanOut<C>(callbacks: seq<C>, entry: string): seq<Delivery<C>>
    decreases |callbacks|
  {
    if callbacks == [] then []
    else FanOut(callbacks[..|callbacks| - 1], entry) + [Delivery(callbacks[|callbacks| - 1], entry)]
  }

  /** The i-th call goes to the i-th callback with the same entry. */
  lemma {:induction false} FanOutInOrder<C>(callbacks: seq<C>, entry: string)
    ensures |FanOut(callbacks, entry)| == |callbacks|
    ensures forall i :: 0 <= i < |callbacks| ==> FanOut(callbacks, entry)[i] == Delivery(callbacks[i], entry)
    decreases |callbacks|
  {
    if callbacks != [] {
      FanOutInOrder(callbacks[..|callbacks| - 1], entry);
    }
  }

  /** With a registry free of repeats, every registered callback is called exactly
      once, and nothing else is called. */
  lemma FanOutOnce<C>(callbacks: seq<C>, entry: string, callback: C)
    requires NoDuplicates(callbacks)
    ensures var calls := FanOut(callbacks, entry);
      && (callback in callbacks <==> Delivery(callback, entry) in calls)
      && (forall i, j :: 0 <= i < j < |calls| ==> calls[i].callback != calls[j].callback)
  {
    FanOutInOrder(callbacks, entry);
    var calls := FanOut(callbacks, entry);
    if Delivery(callback, entry) in calls {
      var i :| 0 <= i < |calls| && calls[i] == Delivery(callback, entry);
      assert callbacks[i] == callback;
    }
    if callback in callbacks {
      var i :| 0 <= i < |callbacks| && callbacks[i] == callback;
      assert calls[i] == Delivery(callback, entry);
    }
  }

  // ---------------------------------------------------------------------------
  // The logger object
  // ---------------------------------------------------------------------------

  /** A Logger without a log file (the file output is not modelled). The console
      and the callbacks are recorded as what they received. */
  class Logger<C(==)> {
    var callbacks: seq<C>
    var console: seq<string>
    var calls: seq<Delivery<C>>

    predicate Valid()
      reads this
    {
      NoDuplicates(callbacks)
    }

    constructor()
      ensures Valid()
      ensures callbacks == [] && console == [] && calls == []
    {
      callbacks := [];
      console := [];
      calls := [];
    }

    method AddCallback(callback: C)
      requires Valid()
      modifies this
      ensures Valid()
      ensures callbacks == WithCallback(old(callbacks), callback)
      ensures console == old(console) && calls == old(calls)
    {
      if callback !in callbacks {
        callbacks := callbacks + [callback];
      }
      AddKeepsOrder(old(callbacks), callback);
    }

    method RemoveCallback(callback: C)
      requires Valid()
      modifies this
      ensures Valid()
      ensures callbacks == WithoutCallback(old(callbacks), callback)
      ensures callback !in callbacks
      ensures console == old(console) && calls == old(calls)
    {
      RemoveFirst(callbacks, callback);
      RemoveKeepsOthers(callbacks, callback);
      if callback in callbacks {
        callbacks := WithoutCallback(callbacks, callback);
      }
    }

    /** Writes the entry to the console, then hands it to each callback in turn. */
    method Log(message: string, time: string, level: string := "INFO")
      modifies this
      ensures callbacks == old(callbacks)
      ensures console == old(console) + [Entry(level, time, message)]
      ensures calls == old(calls) + FanOut(callbacks, Entry(level, time, message))
    {
      var entry := Entry(level, time, message);
      console := console + [entry];
      for i := 0 to |callbacks|
        invariant callbacks == old(callbacks)
        invariant console == old(console) + [entry]
        invariant calls == old(calls) + FanOut(callbacks[..i], entry)
      {
        assert callbacks[..i + 1][..i] == callbacks[..i];
        calls := calls + [Delivery(callbacks[i], entry)];
      }
      assert callbacks[..|callbacks|] == callbacks;
    }

    method Info(message: string, time: string)
      modifies this
      ensures callbacks == old(callbacks)
      ensures console == old(console) + [Entry("INFO", time, message)]
      ensures calls == old(calls) + FanOut(callbacks, Entry("INFO", time, message))
    {
      Log(message, time, "INFO");
    }

    method Warning(message: string, time: string)
      modifies this
      ensures callbacks == old(callbacks)
      ensures console == old(console) + [Entry("WARNING", time, message)]
      ensures calls == old(calls) + FanOut(callbacks, Entry("WARNING", time, message))
    {
      Log(message, time, "WARNING");
    }

    method Error(message: string, time: string)
      modifies this
      ensures callbacks == old(callbacks)
      ensures console == old(console) + [Entry("ERROR", time, message)]
      ensures calls == old(calls) + FanOut(callbacks, Entry("ERROR", time, message))
    {
      Log(message, time, "ERROR");
    }

    method Success(message: string, time: string)
      modifies this
      ensures callbacks == old(callbacks)
      ensures console == old(console) + [Entry("SUCCESS", time, message)]
      ensures calls == old(calls) + FanOut(callbacks, Entry("SUCCESS", time, message))
    {
      Log(message, time, "SUCCESS");
    }
  }
}
