/** The follow-up checks suggested for weak areas. */
module Recommendation {
  import opened Catalogue
  import opened Answers

  /** A response below this score marks a weak area. */
  const WeakBelow: int := 2

  predicate IsWeak(e: Entry) {
    e.score < WeakBelow
  }

  /** One heading of the suggestions: the id of the weak item, the question
      of its first row (the heading text) and the secondary questions listed
      under it. */
  datatype Suggestion = Suggestion(id: Id, heading: Option<string>, checks: seq<string>)

  /** `secondary[secondary['Primary Link'] == id]`: the questions of the
      secondary rows linked to `id`, in table order. */
  function LinkedQuestions(secondary: seq<SecondaryRow>, id: Id): seq<string> {
    if secondary == [] then []
    else
      var last := secondary[|secondary| - 1];
      LinkedQuestions(secondary[..|secondary| - 1], id) + if last.primaryLink == Some(id) then [last.question] else []
  }

  function CountLinked(secondary: seq<SecondaryRow>, id: Id): nat {
    if secondary == [] then 0
    else CountLinked(secondary[..|secondary| - 1], id) + if secondary[|secondary| - 1].primaryLink == Some(id) then 1 else 0
  }

  predicate WeakHaveRows(primary: seq<PrimaryRow>, rs: seq<Entry>) {
    forall j :: 0 <= j < |rs| && IsWeak(rs[j]) ==> HasRow(primary, rs[j].id)
  }

  function SuggestionFor(primary: seq<PrimaryRow>, secondary: seq<SecondaryRow>, id: Id): Suggestion
    requires HasRow(primary, id)
  {
    Suggestion(id, primary[FindRow(primary, id)].question, LinkedQuestions(secondary, id))
  }

  /** `suggest_secondary_checks`: a heading for each weak response, in
      response order. */
  function Suggestions(primary: seq<PrimaryRow>, secondary: seq<SecondaryRow>, rs: seq<Entry>): seq<Suggestion>
    requires WeakHaveRows(primary, rs)
  {
    if rs == [] then []
    else
      var last := rs[|rs| - 1];
      Suggestions(primary, secondary, rs[..|rs| - 1])
        + if IsWeak(last) then [SuggestionFor(primary, secondary, last.id)] else []
  }

  function CountWeak(rs: seq<Entry>): nat {
    if rs == [] then 0
    else CountWeak(rs[..|rs| - 1]) + if IsWeak(rs[|rs| - 1]) then 1 else 0
  }

  /** The linked questions are the secondary rows linked to `id`, all of
      them (no deduplication), in table order: the linked row at `i` comes
      right after the linked rows before it. */
  lemma {:induction false} LinkedQuestionsInTableOrder(secondary: seq<SecondaryRow>, id: Id)
    ensures |LinkedQuestions(secondary, id)| == CountLinked(secondary, id)
    ensures forall i :: 0 <= i < |secondary| && secondary[i].primaryLink == Some(id) ==>
      CountLinked(secondary[..i], id) < |LinkedQuestions(secondary, id)| &&
      LinkedQuestions(secondary, id)[CountLinked(secondary[..i], id)] == secondary[i].question
  {
    if secondary != [] {
      var init := secondary[..|secondary| - 1];
      LinkedQuestionsInTableOrder(init, id);
      var qs := LinkedQuestions(init, id);
      forall i | 0 <= i < |secondary| && secondary[i].primaryLink == Some(id)
        ensures CountLinked(secondary[..i], id) < |LinkedQuestions(secondary, id)|
        ensures LinkedQuestions(secondary, id)[CountLinked(secondary[..i], id)] == secondary[i].question {
        if i < |secondary| - 1 {
          assert secondary[..i] == init[..i];
          assert init[i] == secondary[i];
        } else {
          assert secondary[..i] == init;
        }
      }
    }
  }

  /** Only linked rows contribute: every listed question is the question of
      a secondary row linked to `id`. */
  lemma {:induction false} LinkedQuestionsOnlyLinked(secondary: seq<SecondaryRow>, id: Id)
    ensures forall q :: q in LinkedQuestions(secondary, id) ==>
      exists i :: 0 <= i < |secondary| && secondary[i].primaryLink == Some(id) && secondary[i].question == q
  {
    if secondary != [] {
      var init := secondary[..|secondary| - 1];
      LinkedQuestionsOnlyLinked(init, id);
      forall q | q in LinkedQuestions(secondary, id)
        ensures exists i :: 0 <= i < |secondary| && secondary[i].primaryLink == Some(id) && secondary[i].question == q {
        if q in LinkedQuestions(init, id) {
          var i :| 0 <= i < |init| && init[i].primaryLink == Some(id) && init[i].question == q;
          assert secondary[i] == init[i];
        } else {
          assert secondary[|secondary| - 1].question == q;
        }
      }
    }
  }

  /** An id that no secondary row links to gets an empty list of checks. */
  lemma {:induction false} UnlinkedHasNoChecks(secondary: seq<SecondaryRow>, id: Id)
    requires forall i :: 0 <= i < |secondary| ==> secondary[i].primaryLink != Some(id)
    ensures LinkedQuestions(secondary, id) == []
  {
    if secondary != [] {
      UnlinkedHasNoChecks(secondary[..|secondary| - 1], id);
    }
  }

  /** One heading per weak response. */
  lemma {:induction false} SuggestionsCount(primary: seq<PrimaryRow>, secondary: seq<SecondaryRow>, rs: seq<Entry>)
    requires WeakHaveRows(primary, rs)
    ensures |Suggestions(primary, secondary, rs)| == CountWeak(rs)
  {
    if rs != [] {
      SuggestionsCount(primary, secondary, rs[..|rs| - 1]);
    }
  }

  /** Every weak response gets its heading, whether or not any secondary row
      links to it, in response order: the weak response at `i` comes right
      after the weak responses before it. */
  lemma {:induction false} SuggestionsOfWeak(primary: seq<PrimaryRow>, secondary: seq<SecondaryRow>, rs: seq<Entry>)
    requires WeakHaveRows(primary, rs)
    ensures forall i :: 0 <= i < |rs| && IsWeak(rs[i]) ==>
      CountWeak(rs[..i]) < |Suggestions(primary, secondary, rs)| &&
      Suggestions(primary, secondary, rs)[CountWeak(rs[..i])] == SuggestionFor(primary, secondary, rs[i].id)
  {
    if rs != [] {
      var init := rs[..|rs| - 1];
      SuggestionsOfWeak(primary, secondary, init);
      SuggestionsCount(primary, secondary, init);
      var ss, ss' := Suggestions(primary, secondary, init), Suggestions(primary, secondary, rs);
      assert ss' == ss + if IsWeak(rs[|rs| - 1]) then [SuggestionFor(primary, secondary, rs[|rs| - 1].id)] else [];
      forall i | 0 <= i < |rs| && IsWeak(rs[i])
        ensures CountWeak(rs[..i]) < |ss'| && ss'[CountWeak(rs[..i])] == SuggestionFor(primary, secondary, rs[i].id) {
        if i < |rs| - 1 {
          assert rs[..i] == init[..i];
          assert init[i] == rs[i];
        } else {
          assert rs[..i] == init;
        }
      }
    }
  }

  /** Some response with this id is weak. */
  predicate WeakId(rs: seq<Entry>, id: Id) {
    exists i :: 0 <= i < |rs| && IsWeak(rs[i]) && rs[i].id == id
  }

  /** Every heading belongs to a weak response and is that id's suggestion. */
  lemma {:induction false} SuggestionsOnlyWeak(primary: seq<PrimaryRow>, secondary: seq<SecondaryRow>, rs: seq<Entry>)
    requires WeakHaveRows(primary, rs)
    ensures forall s :: 0 <= s < |Suggestions(primary, secondary, rs)| ==>
      WeakId(rs, Suggestions(primary, secondary, rs)[s].id)
    ensures forall s :: 0 <= s < |Suggestions(primary, secondary, rs)| ==>
      HasRow(primary, Suggestions(primary, secondary, rs)[s].id) &&
      Suggestions(primary, secondary, rs)[s] == SuggestionFor(primary, secondary, Suggestions(primary, secondary, rs)[s].id)
  {
    if rs != [] {
      var init := rs[..|rs| - 1];
      SuggestionsOnlyWeak(primary, secondary, init);
      var ss, ss' := Suggestions(primary, secondary, init), Suggestions(primary, secondary, rs);
      assert ss' == ss + if IsWeak(rs[|rs| - 1]) then [SuggestionFor(primary, secondary, rs[|rs| - 1].id)] else [];
      forall s | 0 <= s < |ss'| ensures WeakId(rs, ss'[s].id) {
        if s < |ss| {
          assert WeakId(init, ss[s].id);
          var i :| 0 <= i < |init| && IsWeak(init[i]) && init[i].id == ss[s].id;
          assert rs[i] == init[i];
          assert ss'[s] == ss[s];
        } else {
          assert IsWeak(rs[|rs| - 1]) && rs[|rs| - 1].id == ss'[s].id;
        }
      }
    }
  }

  /** With one entry per id, as the responses have, an id answered 2 or 3
      never gets a heading. */
  lemma StrongNeverSuggested(primary: seq<PrimaryRow>, secondary: seq<SecondaryRow>, rs: seq<Entry>, i: nat)
    requires WeakHaveRows(primary, rs) && DistinctKeys(rs)
    requires i < |rs| && !IsWeak(rs[i])
    ensures forall s :: 0 <= s < |Suggestions(primary, secondary, rs)| ==>
      Suggestions(primary, secondary, rs)[s].id != rs[i].id
  {
    SuggestionsOnlyWeak(primary, secondary, rs);
  }
}
