/** The frame-distribution engine of gg::IObservable: an ordered list of
    observer references with attach, detach, notify and attached. */
module Observers {
  import opened Errors

  /** The identity of an observer: the address `&observer` kept in the list. */
  type ObserverId = nat

  /** One recorded call `observer->update(frame)`. */
  datatype Update<F> = Update(observer: ObserverId, frame: F)

  /** Each observer occurs at most once. */
  predicate NoDuplicates(s: seq<ObserverId>)
  {
    forall i, j :: 0 <= i < j < |s| ==> s[i] != s[j]
  }

  /** std::find over the list: the index of the first occurrence of `o`,
      or |s| (the end iterator) when there is none. */
  function Find(s: seq<ObserverId>, o: ObserverId): (i: nat)
    ensures i <= |s|
    ensures i < |s| ==> s[i] == o
    ensures forall j :: 0 <= j < i ==> s[j] != o
  {
    if s == [] then 0
    else if s[0] == o then 0
    else 1 + Find(s[1..], o)
  }

  /** The list after `attach(o)`: `o` goes at the end unless it is already there. */
  function AfterAttach(s: seq<ObserverId>, o: ObserverId): seq<ObserverId>
  {
    if o in s then s else s + [o]
  }

  /** The list after `detach(o)`: the element `find` reaches is erased. */
  function AfterDetach(s: seq<ObserverId>, o: ObserverId): seq<ObserverId>
    requires o in s
  {
    var i := Find(s, o);
    s[..i] + s[i + 1..]
  }

  /** Reference definition: `s` with every occurrence of `o` filtered out. */
  function Without(s: seq<ObserverId>, o: ObserverId): seq<ObserverId>
  {
    if s == [] then []
    else (if s[0] == o then [] else [s[0]]) + Without(s[1..], o)
  }

  /** The calls one notification makes over `s`, in the order it makes them. */
  function Broadcast<F>(s: seq<ObserverId>, frame: F): seq<Update<F>>
  {
    if s == [] then []
    else Broadcast(s[..|s| - 1], frame) + [Update(s[|s| - 1], frame)]
  }

  // ---------------------------------------------------------------------
  // attach

  /** An attached observer is in the list afterwards; an absent one is
      appended after all earlier entries, which are unchanged. */
  lemma AttachAppends(s: seq<ObserverId>, o: ObserverId)
    ensures o in AfterAttach(s, o)
    ensures o !in s ==> |AfterAttach(s, o)| == |s| + 1 && AfterAttach(s, o)[|s|] == o
    ensures AfterAttach(s, o)[..|s|] == s
  {
  }

  /** Attaching an observer that is already attached changes nothing. */
  lemma AttachAttachedIsNoOp(s: seq<ObserverId>, o: ObserverId)
    requires o in s
    ensures AfterAttach(s, o) == s
  {
  }

  /** Attach keeps the invariant that no observer occurs twice. */
  lemma {:induction false} AttachPreservesNoDuplicates(s: seq<ObserverId>, o: ObserverId)
    requires NoDuplicates(s)
    ensures NoDuplicates(AfterAttach(s, o))
  {
    if o !in s {
      var t := s + [o];
      forall i, j | 0 <= i < j < |t| ensures t[i] != t[j] {
        if j == |s| {
          assert t[i] == s[i];
        }
      }
    }
  }

  /** Detaching right after attaching a fresh observer restores the list. */
  lemma {:induction false} DetachUndoesAttach(s: seq<ObserverId>, o: ObserverId)
    requires o !in s
    ensures o in AfterAttach(s, o)
    ensures AfterDetach(AfterAttach(s, o), o) == s
  {
    var t := s + [o];
    var i := Find(t, o);
    assert forall j :: 0 <= j < |s| ==> t[j] == s[j];
    assert t[|s|] == o;
    assert i == |s|;
    assert t[..i] == s;
  }

  // ---------------------------------------------------------------------
  // detach

  /** Detach erases exactly one occurrence of `o` and no other element. */
  lemma {:induction false} DetachRemovesOneOccurrence(s: seq<ObserverId>, o: ObserverId)
    requires o in s
    ensures |AfterDetach(s, o)| == |s| - 1
    ensures multiset(AfterDetach(s, o)) == multiset(s) - multiset{o}
  {
    var i := Find(s, o);
    assert s == s[..i] + [s[i]] + s[i + 1..];
    assert multiset(s) == multiset(s[..i]) + multiset{o} + multiset(s[i + 1..]);
  }

  lemma {:induction false} WithoutConcat(a: seq<ObserverId>, b: seq<ObserverId>, o: ObserverId)
    ensures Without(a + b, o) == Without(a, o) + Without(b, o)
  {
    if a == [] {
      assert a + b == b;
    } else {
      assert (a + b)[0] == a[0];
      assert (a + b)[1..] == a[1..] + b;
      WithoutConcat(a[1..], b, o);
    }
  }

  lemma {:induction false} WithoutAbsent(s: seq<ObserverId>, o: ObserverId)
    requires o !in s
    ensures Without(s, o) == s
  {
    if s != [] {
      WithoutAbsent(s[1..], o);
    }
  }

  /** `o` is no longer in the filtered list, and every other element still is. */
  lemma {:induction false} WithoutMembers(s: seq<ObserverId>, o: ObserverId, x: ObserverId)
    ensures x in Without(s, o) <==> x in s && x != o
  {
    if s != [] {
      WithoutMembers(s[1..], o, x);
      assert s == [s[0]] + s[1..];
    }
  }

  /** With no duplicates, an element does not recur after its position. */
  lemma {:induction false} NotAfterItself(s: seq<ObserverId>, i: nat)
    requires NoDuplicates(s)
    requires i < |s|
    ensures s[i] !in s[i + 1..]
  {
    var q := s[i + 1..];
    forall k | 0 <= k < |q| ensures q[k] != s[i] {
      assert q[k] == s[i + 1 + k];
    }
  }

  /** Filtering out an element that occurs once drops just that occurrence. */
  lemma {:induction false} WithoutSingle(p: seq<ObserverId>, q: seq<ObserverId>, o: ObserverId)
    requires o !in p && o !in q
    ensures Without(p + [o] + q, o) == p + q
  {
    WithoutConcat(p + [o], q, o);
    WithoutConcat(p, [o], o);
    assert Without([o], o) == [] by {
      assert [o][1..] == [];
    }
    WithoutAbsent(p, o);
    WithoutAbsent(q, o);
  }

  /** Under the invariant, detach is filtering `o` out: the other observers
      keep their relative order. */
  lemma {:induction false} DetachKeepsOrder(s: seq<ObserverId>, o: ObserverId)
    requires NoDuplicates(s)
    requires o in s
    ensures AfterDetach(s, o) == Without(s, o)
  {
    var i := Find(s, o);
    var p, q := s[..i], s[i + 1..];
    NotAfterItself(s, i);
    assert s == p + [o] + q;
    WithoutSingle(p, q, o);
  }

  /** Under the invariant, `o` is absent after detach (so the
      "Could not detach observer" check never fires) and the invariant holds. */
  lemma {:induction false} DetachLeavesDetached(s: seq<ObserverId>, o: ObserverId)
    requires NoDuplicates(s)
    requires o in s
    ensures o !in AfterDetach(s, o)
    ensures NoDuplicates(AfterDetach(s, o))
  {
    DetachKeepsOrder(s, o);
    WithoutMembers(s, o, o);
    var i := Find(s, o);
    var t := AfterDetach(s, o);
    forall a, b | 0 <= a < b < |t| ensures t[a] != t[b] {
      var a' := if a < i then a else a + 1;
      var b' := if b < i then b else b + 1;
      assert t[a] == s[a'] && t[b] == s[b'];
    }
  }

  // ---------------------------------------------------------------------
  // notify

  /** A notification calls `update` once per list entry, in list order,
      each time with the same frame. */
  lemma {:induction false} BroadcastInOrder<F>(s: seq<ObserverId>, frame: F)
    ensures |Broadcast(s, frame)| == |s|
    ensures forall i :: 0 <= i < |s| ==> Broadcast(s, frame)[i] == Update(s[i], frame)
  {
    if s != [] {
      BroadcastInOrder(s[..|s| - 1], frame);
    }
  }

  lemma {:induction false} BroadcastMultiplicity<F>(s: seq<ObserverId>, frame: F, o: ObserverId)
    ensures multiset(Broadcast(s, frame))[Update(o, frame)] == multiset(s)[o]
  {
    if s != [] {
      BroadcastMultiplicity(s[..|s| - 1], frame, o);
      assert s == s[..|s| - 1] + [s[|s| - 1]];
    }
  }

  lemma {:induction false} NoDuplicatesMultiplicity(s: seq<ObserverId>, o: ObserverId)
    requires NoDuplicates(s)
    ensures multiset(s)[o] == if o in s then 1 else 0
  {
    if s != [] {
      assert s == [s[0]] + s[1..];
      assert NoDuplicates(s[1..]) by {
        forall i, j | 0 <= i < j < |s[1..]| ensures s[1..][i] != s[1..][j] {
          assert s[1..][i] == s[i + 1] && s[1..][j] == s[j + 1];
        }
      }
      NoDuplicatesMultiplicity(s[1..], o);
      if s[0] == o {
        forall k | 0 <= k < |s[1..]| ensures s[1..][k] != o {
          assert s[1..][k] == s[k + 1];
        }
      }
    }
  }

  /** Under the invariant, every attached observer receives the frame exactly
      once and a detached one never does. */
  lemma BroadcastExactlyOnce<F>(s: seq<ObserverId>, frame: F, o: ObserverId)
    requires NoDuplicates(s)
    ensures multiset(Broadcast(s, frame))[Update(o, frame)] == if o in s then 1 else 0
  {
    BroadcastMultiplicity(s, frame, o);
    NoDuplicatesMultiplicity(s, o);
  }

  // ---------------------------------------------------------------------
  // the object

  /** gg::IObservable: the `_observers` vector and the four operations on it. */
  class Observable {
    var observers: seq<ObserverId>

    /** The object invariant: no observer is attached twice. */
    ghost predicate Valid()
      reads this
    {
      NoDuplicates(observers)
    }

    constructor ()
      ensures Valid() && observers == []
    {
      observers := [];
    }

    /** `attached(o)`: a side-effect-free membership query. */
    function Attached(o: ObserverId): (r: bool)
      reads this
      ensures r <==> o in observers
    {
      Find(observers, o) < |observers|
    }

    /** `attach(o)`: appends `o` unless it is attached already, in which case
        nothing happens and nothing is raised; the re-check after the append
        never raises. */
    method Attach(o: ObserverId) returns (r: Outcome)
      requires Valid()
      modifies this
      ensures Valid()
      ensures r == Pass
      ensures observers == AfterAttach(old(observers), o)
      ensures o in observers
    {
      AttachPreservesNoDuplicates(observers, o);
      r := Pass;
      if !Attached(o) {
        observers := observers + [o];
        if !Attached(o) {
          r := Fail(ObserverError("Could not attach observer"));
        }
      }
    }

    /** `detach(o)`: erases the occurrence `find` reaches. Erasing the end
        iterator is undefined, so `o` must be attached; given the invariant,
        the re-check after the erase never raises. */
    method Detach(o: ObserverId) returns (r: Outcome)
      requires Valid()
      requires o in observers
      modifies this
      ensures Valid()
      ensures r == Pass
      ensures observers == AfterDetach(old(observers), o)
      ensures o !in observers
    {
      DetachLeavesDetached(observers, o);
      var i := Find(observers, o);
      observers := observers[..i] + observers[i + 1..];
      r := Pass;
      if Attached(o) {
        r := Fail(ObserverError("Could not detach observer"));
      }
    }

    /** `notify(frame)`: calls `update(frame)` on each observer in list order;
        the list itself is not changed. */
    method Notify<F>(frame: F) returns (trace: seq<Update<F>>)
      ensures trace == Broadcast(observers, frame)
    {
      trace := [];
      for k := 0 to |observers|
        invariant trace == Broadcast(observers[..k], frame)
      {
        assert observers[..k + 1][..k] == observers[..k];
        trace := trace + [Update(observers[k], frame)];
      }
      assert observers[..|observers|] == observers;
    }
  }
}
