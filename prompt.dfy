/**
 * Reading a yes/no answer. The user's replies are a sequence of lines; the
 * end of that sequence is the end of input, at which reading a reply fails.
 */
module Prompt {
  import opened Wrappers
  import opened Text

  /**
   * How one reply is read, after stripping and lower-casing it: an empty
   * reply takes the default, "y"/"yes" and "n"/"no" answer, and anything else
   * is no answer (the question is asked again).
   */
  function Reading(reply: string, defaultYes: bool): Option<bool> {
    var r := LowerAscii(Strip(reply));
    if r == "" then Some(defaultYes)
    else if r == "y" || r == "yes" then Some(true)
    else if r == "n" || r == "no" then Some(false)
    else None
  }

  /**
   * A reply is no answer exactly when, stripped and lower-cased, it is none
   * of "", "y", "yes", "n", "no"; it reads as yes for "y" and "yes", and for
   * the empty reply when the default is yes.
   */
  lemma ReadingCases(reply: string, defaultYes: bool)
    ensures var r := LowerAscii(Strip(reply));
      && (Reading(reply, defaultYes).None? <==> r != "" && r != "y" && r != "yes" && r != "n" && r != "no")
      && (Reading(reply, defaultYes) == Some(true) <==> r == "y" || r == "yes" || (defaultYes && r == ""))
  {
  }

  /** White space around a reply does not change how it is read. */
  lemma ReadingIgnoresSpace(reply: string, defaultYes: bool)
    ensures Reading(Strip(reply), defaultYes) == Reading(reply, defaultYes)
  {
    StripIdempotent(reply);
  }

  /** A blank reply takes the default. */
  lemma ReadingBlank(reply: string, defaultYes: bool)
    requires forall i :: 0 <= i < |reply| ==> IsSpace(reply[i])
    ensures Reading(reply, defaultYes) == Some(defaultYes)
  {
    assert Strip(reply) == [];
  }


  /** The outcome of asking: the answer, if any, and how many replies were read. */
  datatype Reply = Reply(answer: Option<bool>, used: nat)

  /** How each reply, one by one, is read. */
  function Readings(replies: seq<string>, defaultYes: bool): (r: seq<Option<bool>>)
    ensures |r| == |replies|
  {
    seq(|replies|, i requires 0 <= i < |replies| => Reading(replies[i], defaultYes))
  }

  lemma ReadingsAt(replies: seq<string>, defaultYes: bool, i: nat)
    requires i < |replies|
    ensures Readings(replies, defaultYes)[i] == Reading(replies[i], defaultYes)
  {
  }

  /** Taking readings until one answers; no answer when they run out. */
  function FirstAnswer(readings: seq<Option<bool>>): (r: Reply)
    ensures r.used <= |readings|
  {
    if readings == [] then Reply(None, 0)
    else if readings[0].Some? then Reply(readings[0], 1)
    else
      var later := FirstAnswer(readings[1..]);
      Reply(later.answer, later.used + 1)
  }

  /** `prompt_yes_no`'s outcome: yes without reading anything under `autoYes`. */
  function Ask(replies: seq<string>, defaultYes: bool, autoYes: bool): (r: Reply)
    ensures autoYes ==> r == Reply(Some(true), 0)
  {
    if autoYes then Reply(Some(true), 0) else FirstAnswer(Readings(replies, defaultYes))
  }

  /** Every reading before the one that answers is no answer. */
  lemma {:induction false} FirstAnswerSkipsUnanswered(readings: seq<Option<bool>>, j: nat)
    requires j + 1 < FirstAnswer(readings).used
    ensures readings[j].None?
  {
    if j > 0 {
      assert readings[1..][j - 1] == readings[j];
      FirstAnswerSkipsUnanswered(readings[1..], j - 1);
    }
  }

  /** An answer is the last reading taken. */
  lemma {:induction false} FirstAnswerFound(readings: seq<Option<bool>>)
    ensures var r := FirstAnswer(readings);
      r.answer.Some? ==> 0 < r.used && r.answer == readings[r.used - 1]
  {
    if readings != [] && readings[0].None? {
      FirstAnswerFound(readings[1..]);
      var later := FirstAnswer(readings[1..]);
      if later.answer.Some? {
        assert readings[1..][later.used - 1] == readings[later.used];
      }
    }
  }

  /** There is no answer only when every reading was taken and none answers. */
  lemma {:induction false} FirstAnswerExhausted(readings: seq<Option<bool>>, j: nat)
    requires FirstAnswer(readings).answer.None? && j < |readings|
    ensures FirstAnswer(readings).used == |readings|
    ensures readings[j].None?
  {
    if |readings| > 1 && readings[0].None? {
      FirstAnswerExhausted(readings[1..], if j > 0 then j - 1 else 0);
      if j > 0 {
        assert readings[1..][j - 1] == readings[j];
      }
    }
  }

  /**
   * Without `autoYes`, the answer is that of the first reply that answers,
   * and there is none only when no reply answers and all were read.
   */
  lemma AskIsFirstAnswer(replies: seq<string>, defaultYes: bool)
    ensures var r := Ask(replies, defaultYes, false);
      var readings := Readings(replies, defaultYes);
      && (forall j :: 0 <= j < r.used - 1 ==> readings[j].None?)
      && (r.answer.Some? ==> 0 < r.used && r.answer == readings[r.used - 1])
      && (r.answer.None? ==> r.used == |replies| && forall j :: 0 <= j < |replies| ==> readings[j].None?)
  {
    var readings := Readings(replies, defaultYes);
    forall j | 0 <= j < FirstAnswer(readings).used - 1 {
      FirstAnswerSkipsUnanswered(readings, j);
    }
    FirstAnswerFound(readings);
    if FirstAnswer(readings).answer.None? {
      forall j | 0 <= j < |replies| {
        FirstAnswerExhausted(readings, j);
      }
    }
  }

  /**
   * `prompt_yes_no`: with `autoYes` the answer is yes and no reply is read.
   * Otherwise replies are read until one answers; `used` is the number read.
   */
  method PromptYesNo(replies: seq<string>, defaultYes: bool, autoYes: bool)
    returns (answer: Option<bool>, used: nat)
    ensures Reply(answer, used) == Ask(replies, defaultYes, autoYes)
  {
    if autoYes {
      return Some(true), 0;
    }
    ghost var readings := Readings(replies, defaultYes);
    used := 0;
    while used < |replies|
      invariant used <= |replies|
      invariant var r := FirstAnswer(readings[used..]);
        FirstAnswer(readings) == Reply(r.answer, r.used + used)
    {
      var reading := Reading(replies[used], defaultYes);
      ReadingsAt(replies, defaultYes, used);
      assert readings[used..][1..] == readings[used + 1..];
      if reading.Some? {
        return reading, used + 1;
      }
      used := used + 1;
    }
    answer := None;
  }
}
