/** The typewriter effect on the job title: once loading ends, a callback
    types the title one character per call, rescheduling itself after each
    character, and sets `typingComplete` on the call that finds nothing left. */
module Typewriter {

  /** The text typed out. */
  const Title: string := "Full Stack Web Developer"

  /** The effect's state: the counter `i`, the element's text so far, and `typingComplete`. */
  datatype State = State(i: nat, output: string, complete: bool)

  /** The state when the effect starts: the element is cleared and nothing is typed. */
  const Start: State := State(0, "", false)

  /** The state of a run that has typed `text[..i]`. */
  predicate Typed(text: string, s: State)
  {
    s.i <= |text| && s.output == text[..s.i] && (s.complete ==> s.i == |text|)
  }

  /** One call of the callback: type the next character, or mark typing complete. */
  function Next(text: string, s: State): (r: State)
    ensures Typed(text, s) ==> Typed(text, r)
    ensures r.complete <==> s.complete || s.i >= |text|
    ensures s.i < |text| ==> r.i == s.i + 1 && r.output == s.output + [text[s.i]]
    ensures s.i >= |text| ==> r.i == s.i && r.output == s.output
  {
    if s.i < |text| then State(s.i + 1, s.output + [text[s.i]], s.complete)
    else s.(complete := true)
  }

  /** Does this call schedule a further call? */
  function Reschedules(text: string, s: State): (r: bool)
    ensures r <==> |Next(text, s).output| == |s.output| + 1
    ensures !r ==> Next(text, s).complete
  {
    s.i < |text|
  }

  /** The state after `k` calls. */
  function Steps(text: string, s: State, k: nat): (r: State)
    ensures Typed(text, s) ==> Typed(text, r)
    ensures s.i <= r.i <= s.i + k
    ensures s.complete ==> r.complete
    decreases k
  {
    if k == 0 then s else Steps(text, Next(text, s), k - 1)
  }

  function Min(a: nat, b: nat): nat
  {
    if a <= b then a else b
  }

  /** From a state that has typed `text[..j]` and is not complete, `k` more
      calls type up to `k` more characters and complete only once a call finds
      the whole text typed. */
  lemma {:induction false} StepsFrom(text: string, j: nat, k: nat)
    requires j <= |text|
    ensures var n := Min(j + k, |text|);
            Steps(text, State(j, text[..j], false), k) == State(n, text[..n], j + k > |text|)
    decreases k
  {
    if k > 0 {
      if j < |text| {
        assert text[..j] + [text[j]] == text[..j + 1];
        StepsFrom(text, j + 1, k - 1);
      } else {
        assert j == |text| && text[..j] == text;
        CompleteIsFinal(text, k - 1);
      }
    }
  }

  /** Once the whole text is typed and completion is recorded, further calls change nothing. */
  lemma {:induction false} CompleteIsFinal(text: string, k: nat)
    ensures Steps(text, State(|text|, text, true), k) == State(|text|, text, true)
    decreases k
  {
    if k > 0 {
      CompleteIsFinal(text, k - 1);
    }
  }

  /** After `k` calls from the start the output is the first `k` characters
      (all of them once `k` passes the length), `i` counts them, and typing is
      complete exactly when a call ran with the whole text typed. */
  lemma TypedAfter(text: string, k: nat)
    ensures var s := Steps(text, Start, k);
            && s.i == Min(k, |text|) && s.i <= |text|
            && s.output == text[..s.i]
            && (k <= |text| ==> s.i == k && s.output == text[..k])
            && (s.complete <==> k > |text|)
  {
    assert text[..0] == "";
    StepsFrom(text, 0, k);
  }

  /** The chain of calls started at mount: calls 1 to |text| each reschedule,
      and call |text| + 1 completes typing without rescheduling. */
  lemma ChainRunsOnce(text: string)
    ensures forall k :: 0 <= k < |text| ==> Reschedules(text, Steps(text, Start, k))
    ensures !Reschedules(text, Steps(text, Start, |text|))
    ensures Steps(text, Start, |text| + 1) == State(|text|, text, true)
  {
    forall k | 0 <= k < |text|
      ensures Reschedules(text, Steps(text, Start, k))
    {
      TypedAfter(text, k);
    }
    TypedAfter(text, |text|);
    TypedAfter(text, |text| + 1);
  }

  /** The typewriter of the job title, as the effect's closure holds it. */
  class TitleTyper {
    var i: nat
    var output: string
    var complete: bool

    function Progress(): State
      reads this
    {
      State(i, output, complete)
    }

    /** The effect starts: `i` is 0, the element is emptied, typing is not complete. */
    constructor ()
      ensures Progress() == Start
    {
      i := 0;
      output := "";
      complete := false;
    }

    /** One call of the callback; `again` says whether it scheduled the next call. */
    method Step() returns (again: bool)
      requires Typed(Title, Progress())
      modifies this
      ensures Progress() == Next(Title, old(Progress()))
      ensures Typed(Title, Progress())
      ensures again == (old(i) < |Title|)
      ensures complete <==> old(complete) || old(i) == |Title|
    {
      if i < |Title| {
        output := output + [Title[i]];
        i := i + 1;
        again := true;
      } else {
        complete := true;
        again := false;
      }
    }
  }
}
