/** The responses of one assessment: an insertion-ordered dictionary from
    primary id to score, and the questionnaire loop that fills it. */
module Answers {
  import opened Catalogue

  /** The radio buttons offer these three values only. */
  type Score = x: int | 1 <= x <= 3 witness 1

  datatype Entry = Entry(id: Id, score: Score)

  /** A dictionary keeps each key once; its entries iterate in the order in
      which the keys were first inserted. */
  predicate DistinctKeys(rs: seq<Entry>) {
    forall i, j :: 0 <= i < j < |rs| ==> rs[i].id != rs[j].id
  }

  predicate HasKey(rs: seq<Entry>, k: Id) {
    exists j :: 0 <= j < |rs| && rs[j].id == k
  }

  /** `rs[k] = v` on a dictionary: an existing key keeps its place and takes
      the new value, a new key goes to the end. */
  function Put(rs: seq<Entry>, k: Id, v: Score): (r: seq<Entry>)
    requires DistinctKeys(rs)
    ensures DistinctKeys(r)
    ensures HasKey(rs, k) ==> |r| == |rs|
    ensures HasKey(rs, k) ==>
      forall j :: 0 <= j < |rs| ==> r[j] == if rs[j].id == k then Entry(k, v) else rs[j]
    ensures !HasKey(rs, k) ==> r == rs + [Entry(k, v)]
  {
    if rs == [] then [Entry(k, v)]
    else if rs[0].id == k then [Entry(k, v)] + rs[1..]
    else
      assert HasKey(rs, k) <==> HasKey(rs[1..], k) by {
        if HasKey(rs, k) {
          var j :| 0 <= j < |rs| && rs[j].id == k;
          assert rs[1..][j - 1].id == k;
        }
      }
      [rs[0]] + Put(rs[1..], k, v)
  }

  /** What row `i` contributes to the responses: its id when its question
      is asked, nothing when the question is missing or white space. */
  function Slots(primary: seq<PrimaryRow>): (slots: seq<Option<Id>>)
    ensures |slots| == |primary|
  {
    seq(|primary|, i requires 0 <= i < |primary| =>
      if IsBlank(primary[i].question) then None else Some(primary[i].id))
  }

  /** Index of the last slot before `n` that holds `k`, or -1. */
  function LastSlot(slots: seq<Option<Id>>, n: nat, k: Id): (i: int)
    requires n <= |slots|
    ensures -1 <= i < n
  {
    if n == 0 then -1
    else if slots[n - 1] == Some(k) then n - 1
    else LastSlot(slots, n - 1, k)
  }

  /** Index of the first slot before `n` that holds `k`, or -1. */
  function FirstSlot(slots: seq<Option<Id>>, n: nat, k: Id): (i: int)
    requires n <= |slots|
    ensures -1 <= i < n
  {
    if n == 0 then -1
    else
      var f := FirstSlot(slots, n - 1, k);
      if f >= 0 then f
      else if slots[n - 1] == Some(k) then n - 1
      else -1
  }

  /** `LastSlot` finds the last slot holding `k`, and fails only when there is none. */
  lemma {:induction false} LastSlotIsLast(slots: seq<Option<Id>>, n: nat, k: Id)
    requires n <= |slots|
    ensures LastSlot(slots, n, k) == -1 <==> forall j :: 0 <= j < n ==> slots[j] != Some(k)
    ensures LastSlot(slots, n, k) >= 0 ==> slots[LastSlot(slots, n, k)] == Some(k)
    ensures LastSlot(slots, n, k) >= 0 ==>
      forall j :: LastSlot(slots, n, k) < j < n ==> slots[j] != Some(k)
  {
    if n > 0 && slots[n - 1] != Some(k) {
      LastSlotIsLast(slots, n - 1, k);
    }
  }

  /** `FirstSlot` finds the first slot holding `k`, and fails only when there is none. */
  lemma {:induction false} FirstSlotIsFirst(slots: seq<Option<Id>>, n: nat, k: Id)
    requires n <= |slots|
    ensures FirstSlot(slots, n, k) == -1 <==> forall j :: 0 <= j < n ==> slots[j] != Some(k)
    ensures FirstSlot(slots, n, k) >= 0 ==> slots[FirstSlot(slots, n, k)] == Some(k)
    ensures FirstSlot(slots, n, k) >= 0 ==>
      forall j :: 0 <= j < FirstSlot(slots, n, k) ==> slots[j] != Some(k)
  {
    if n > 0 {
      FirstSlotIsFirst(slots, n - 1, k);
    }
  }

  /** Some row holds `k` in its slot exactly when a row with id `k` has a
      question that is asked. */
  lemma SlotFoundIffAsked(primary: seq<PrimaryRow>, k: Id)
    ensures LastSlot(Slots(primary), |primary|, k) >= 0 <==>
      exists i :: 0 <= i < |primary| && primary[i].id == k && !IsBlank(primary[i].question)
  {
    var slots := Slots(primary);
    LastSlotIsLast(slots, |primary|, k);
    if LastSlot(slots, |primary|, k) >= 0 {
      var i := LastSlot(slots, |primary|, k);
      assert slots[i] == Some(k);
      assert primary[i].id == k && !IsBlank(primary[i].question);
    } else {
      forall i | 0 <= i < |primary| && primary[i].id == k
        ensures IsBlank(primary[i].question) {
        assert slots[i] != Some(k);
      }
    }
  }

  /** The responses after the questionnaire has gone over the first `n` rows. */
  ghost predicate CollectedUpTo(slots: seq<Option<Id>>, answers: seq<Score>, n: nat, rs: seq<Entry>)
    requires n <= |slots| == |answers|
  {
    && DistinctKeys(rs)
    && (forall k :: HasKey(rs, k) <==> LastSlot(slots, n, k) >= 0)
    && (forall j :: 0 <= j < |rs| ==> LastSlot(slots, n, rs[j].id) >= 0)
    && (forall j :: 0 <= j < |rs| ==> rs[j].score == answers[LastSlot(slots, n, rs[j].id)])
    && (forall i, j :: 0 <= i < j < |rs| ==>
          FirstSlot(slots, n, rs[i].id) < FirstSlot(slots, n, rs[j].id))
  }

  /** `ask_primary_questions`: `answers[i]` is the value the radio button of
      row `i` returns. Rows whose question is missing or white space are
      skipped; every other row's id is mapped to its answer. The result has
      one entry per id of an asked row, holding the answer to the LAST asked
      row with that id, and the entries stand in the order of the FIRST asked
      row of each id. */
  method CollectResponses(primary: seq<PrimaryRow>, answers: seq<Score>) returns (rs: seq<Entry>)
    requires |answers| == |primary|
    ensures DistinctKeys(rs)
    ensures forall k :: HasKey(rs, k) <==>
      exists i :: 0 <= i < |primary| && primary[i].id == k && !IsBlank(primary[i].question)
    ensures forall j :: 0 <= j < |rs| ==> HasRow(primary, rs[j].id)
    ensures forall k :: HasKey(rs, k) <==> LastSlot(Slots(primary), |primary|, k) >= 0
    ensures forall j :: 0 <= j < |rs| ==> LastSlot(Slots(primary), |primary|, rs[j].id) >= 0
    ensures forall j :: 0 <= j < |rs| ==>
      rs[j].score == answers[LastSlot(Slots(primary), |primary|, rs[j].id)]
    ensures forall i, j :: 0 <= i < j < |rs| ==>
      FirstSlot(Slots(primary), |primary|, rs[i].id) < FirstSlot(Slots(primary), |primary|, rs[j].id)
  {
    ghost var slots := Slots(primary);
    rs := [];
    var n := 0;
    while n < |primary|
      invariant n <= |primary|
      invariant CollectedUpTo(slots, answers, n, rs)
    {
      var row := primary[n];
      if !IsBlank(row.question) {
        assert slots[n] == Some(row.id);
        PutKeepsCollected(slots, answers, n, rs);
        rs := Put(rs, row.id, answers[n]);
      } else {
        assert slots[n] == None;
        SkipKeepsCollected(slots, answers, n, rs);
      }
      n := n + 1;
    }
    KeysAreAskedIds(primary, answers, rs);
  }

  /** Once every row is visited, the keys are the ids of the asked rows. */
  lemma KeysAreAskedIds(primary: seq<PrimaryRow>, answers: seq<Score>, rs: seq<Entry>)
    requires |answers| == |primary|
    requires CollectedUpTo(Slots(primary), answers, |primary|, rs)
    ensures forall k :: HasKey(rs, k) <==>
      exists i :: 0 <= i < |primary| && primary[i].id == k && !IsBlank(primary[i].question)
    ensures forall j :: 0 <= j < |rs| ==> HasRow(primary, rs[j].id)
  {
    forall k ensures HasKey(rs, k) <==>
      exists i :: 0 <= i < |primary| && primary[i].id == k && !IsBlank(primary[i].question) {
      SlotFoundIffAsked(primary, k);
    }
    forall j | 0 <= j < |rs| ensures HasRow(primary, rs[j].id) {
      assert HasKey(rs, rs[j].id);
    }
  }

  /** A skipped row changes nothing. */
  lemma SkipKeepsCollected(slots: seq<Option<Id>>, answers: seq<Score>, n: nat, rs: seq<Entry>)
    requires n < |slots| == |answers| && slots[n] == None
    requires CollectedUpTo(slots, answers, n, rs)
    ensures CollectedUpTo(slots, answers, n + 1, rs)
  {
    forall k ensures LastSlot(slots, n + 1, k) == LastSlot(slots, n, k)
      && FirstSlot(slots, n + 1, k) == FirstSlot(slots, n, k) {
    }
  }

  /** An asked row is stored under its id. */
  lemma PutKeepsCollected(slots: seq<Option<Id>>, answers: seq<Score>, n: nat, rs: seq<Entry>)
    requires n < |slots| == |answers| && slots[n].Some?
    requires CollectedUpTo(slots, answers, n, rs)
    ensures CollectedUpTo(slots, answers, n + 1, Put(rs, slots[n].value, answers[n]))
  {
    var k0 := slots[n].value;
    assert LastSlot(slots, n + 1, k0) == n;
    forall k | k != k0 ensures LastSlot(slots, n + 1, k) == LastSlot(slots, n, k)
      && FirstSlot(slots, n + 1, k) == FirstSlot(slots, n, k) {
    }
    LastSlotIsLast(slots, n, k0);
    FirstSlotIsFirst(slots, n, k0);
    if HasKey(rs, k0) {
      assert FirstSlot(slots, n + 1, k0) == FirstSlot(slots, n, k0);
      ReplaceKeepsCollected(slots, answers, n, rs);
    } else {
      assert FirstSlot(slots, n + 1, k0) == n;
      AppendKeepsCollected(slots, answers, n, rs);
    }
  }

  /** Answering a row whose id is already a key: the entry keeps its place. */
  lemma ReplaceKeepsCollected(slots: seq<Option<Id>>, answers: seq<Score>, n: nat, rs: seq<Entry>)
    requires n < |slots| == |answers| && slots[n].Some? && HasKey(rs, slots[n].value)
    requires CollectedUpTo(slots, answers, n, rs)
    requires LastSlot(slots, n + 1, slots[n].value) == n
    requires FirstSlot(slots, n + 1, slots[n].value) == FirstSlot(slots, n, slots[n].value)
    requires forall k | k != slots[n].value ::
      LastSlot(slots, n + 1, k) == LastSlot(slots, n, k) && FirstSlot(slots, n + 1, k) == FirstSlot(slots, n, k)
    ensures CollectedUpTo(slots, answers, n + 1, Put(rs, slots[n].value, answers[n]))
  {
    var k0 := slots[n].value;
    var r := Put(rs, k0, answers[n]);
    assert |r| == |rs|;
    forall j | 0 <= j < |r| ensures r[j].id == rs[j].id
      && (rs[j].id == k0 ==> r[j].score == answers[n])
      && (rs[j].id != k0 ==> r[j] == rs[j]) {
    }
    forall k ensures HasKey(r, k) <==> HasKey(rs, k) {
      if HasKey(rs, k) {
        var j :| 0 <= j < |rs| && rs[j].id == k;
        assert r[j].id == k;
      }
      if HasKey(r, k) {
        var j :| 0 <= j < |r| && r[j].id == k;
        assert rs[j].id == k;
      }
    }
    forall j | 0 <= j < |r| ensures LastSlot(slots, n + 1, r[j].id) >= 0
      && r[j].score == answers[LastSlot(slots, n + 1, r[j].id)]
      && FirstSlot(slots, n + 1, r[j].id) == FirstSlot(slots, n, rs[j].id) {
      if rs[j].id != k0 {
        assert LastSlot(slots, n + 1, r[j].id) == LastSlot(slots, n, rs[j].id);
      }
    }
  }

  /** Answering a row with a new id: the entry goes to the end. */
  lemma AppendKeepsCollected(slots: seq<Option<Id>>, answers: seq<Score>, n: nat, rs: seq<Entry>)
    requires n < |slots| == |answers| && slots[n].Some? && !HasKey(rs, slots[n].value)
    requires CollectedUpTo(slots, answers, n, rs)
    requires LastSlot(slots, n + 1, slots[n].value) == n
    requires FirstSlot(slots, n + 1, slots[n].value) == n
    requires forall k | k != slots[n].value ::
      LastSlot(slots, n + 1, k) == LastSlot(slots, n, k) && FirstSlot(slots, n + 1, k) == FirstSlot(slots, n, k)
    ensures CollectedUpTo(slots, answers, n + 1, Put(rs, slots[n].value, answers[n]))
  {
    var k0 := slots[n].value;
    var r := Put(rs, k0, answers[n]);
    assert r == rs + [Entry(k0, answers[n])];
    forall k ensures HasKey(r, k) <==> HasKey(rs, k) || k == k0 {
      if HasKey(r, k) && k != k0 {
        var j :| 0 <= j < |r| && r[j].id == k;
        assert rs[j].id == k;
      }
      if HasKey(rs, k) {
        var j :| 0 <= j < |rs| && rs[j].id == k;
        assert r[j].id == k;
      }
      if k == k0 {
        assert r[|rs|].id == k;
      }
    }
  }
}
