/**
 * `conversation` in mbot.py: every text message is parsed; error code 0
 * stores the reading and confirms it, code 1 answers with the `Check fail`
 * dialog, and anything else is handed to `talk`. Each branch also logs the
 * message under a category.
 *
 * Storage, logging and sending are returned as a list of effects, in the
 * order the source performs them, instead of being performed.
 */
module Routing {
  import opened Wrappers
  import opened Strings
  import opened Parsing
  import opened Intents

  /** The branch `conversation` takes. */
  datatype Decision =
    | Accept(vad: int, nad: int, pulse: Option<int>, comment: string)
    | Reject(shownVad: Option<int>, shownNad: Option<int>)
    | Chat(intent: Intent)

  /** A dialog template of the `DIALOG` section with the values it is formatted with. */
  datatype Reply =
    | Gotit2(vad: int, nad: int)
    | Gotit3(vad: int, nad: int, pulse: int)
    | CheckFail(shownVad: Option<int>, shownNad: Option<int>)
    | Greeting
    | HelpText
    | Nocomprene

  /** What the bot does to the outside world. */
  datatype Effect =
    | WriteReading(vad: int, nad: int, pulse: Option<int>, comment: string)  // write_data
    | StoreAction(text: string, category: string)                            // store_user_action
    | Send(reply: Reply)                                                      // bot.send_message

  /** The decision `conversation` reaches on `message`: `talk` only when
      there is no number at all, and then with the intent `talk` finds; an
      accepted reading is the first two numbers, which pass the strict
      blood-pressure test, the third as pulse when it is within its limits,
      and the text words as its comment; a rejection shows the first two
      numbers when there were two, and nothing otherwise. */
  function Route(message: string, limits: Limits, dict: Dictionary): (d: Decision)
    ensures d.Chat? <==> Values(Words(message)) == []
    ensures d.Chat? ==> d.intent == TalkIntent(message, dict)
    ensures var vs := Values(Words(message));
            d.Accept? ==> |vs| >= 2 && d.vad == vs[0] && d.nad == vs[1]
                          && BloodPressureOk(d.vad, d.nad, limits)
                          && d.pulse == (if |vs| >= 3 && PulseOk(vs[2], limits) then Some(vs[2] as int) else None)
                          && d.comment == Join(Others(Words(message)), ' ')
    ensures var vs := Values(Words(message));
            d.Reject? ==> (d.shownVad.Some? <==> |vs| >= 2) && (d.shownNad.Some? <==> |vs| >= 2)
                          && (|vs| >= 2 ==> d.shownVad == Some(vs[0] as int) && d.shownNad == Some(vs[1] as int))
    ensures var vs := Values(Words(message));
            |vs| >= 2 && BloodPressureOk(vs[0], vs[1], limits) ==> d.Accept?
  {
    var p := ParseSpec(message, limits);
    if p.code == 0 then Accept(p.vad.value, p.nad.value, p.pulse, p.comment)
    else if p.code == 1 then Reject(p.vad, p.nad)
    else Chat(TalkIntent(message, dict))
  }

  /** The log category `conversation` stores the message under. */
  function Category(d: Decision): string
  {
    match d
    case Accept(_, _, _, _) => "data_accepted"
    case Reject(_, _) => "data_rejected"
    case Chat(_) => "talk"
  }

  /** What `talk` does for each intent; for help it runs `helpme`, which
      logs the `/help` command before sending the help text. */
  function TalkEffects(intent: Intent): seq<Effect>
  {
    match intent
    case Hello => [Send(Greeting)]
    case Help => [StoreAction("/help", "command"), Send(HelpText)]
    case NoComprene => [Send(Nocomprene)]
  }

  /** The effects of a decision, in source order. A reading is written only
      when accepted, once, and first; exactly one reply is sent, and which
      one follows the decision; the message itself is logged under the
      decision's category, before the reply when there is a reading or a
      rejection and last after `talk`, exactly once; the only other log is
      the `/help` command, first and only for help; nothing else happens. */
  function Effects(d: Decision, message: string): (e: seq<Effect>)
    ensures (exists i :: 0 <= i < |e| && e[i].WriteReading?) <==> d.Accept?
    ensures exists i :: 0 <= i < |e| && e[i].Send?
    ensures forall i, j :: 0 <= i < |e| && 0 <= j < |e| && e[i].Send? && e[j].Send? ==> i == j
    ensures StoreAction(message, Category(d)) in e
    ensures d.Accept? ==> e[0] == WriteReading(d.vad, d.nad, d.pulse, d.comment)
    ensures d.Accept? && d.pulse.None? ==> Send(Gotit2(d.vad, d.nad)) in e
    ensures d.Accept? && d.pulse.Some? ==> Send(Gotit3(d.vad, d.nad, d.pulse.value)) in e
    ensures d.Reject? ==> Send(CheckFail(d.shownVad, d.shownNad)) in e
    ensures d == Chat(Hello) ==> Send(Greeting) in e
    ensures d == Chat(Help) ==> e[0] == StoreAction("/help", "command") && Send(HelpText) in e
    ensures d == Chat(NoComprene) ==> Send(Nocomprene) in e
    ensures forall i, j :: 0 <= i < |e| && 0 <= j < |e| && e[i].WriteReading? && e[j].WriteReading? ==> i == j
    ensures forall i :: 0 <= i < |e| && e[i].StoreAction? ==>
              e[i] == StoreAction(message, Category(d)) || (d == Chat(Help) && i == 0 && e[i] == StoreAction("/help", "command"))
    ensures !d.Chat? ==> e[|e| - 1].Send? && StoreAction(message, Category(d)) in e[..|e| - 1]
    ensures d.Chat? ==> e[|e| - 1] == StoreAction(message, "talk")
    ensures |e| == (if d.Accept? || d == Chat(Help) then 3 else 2)
  {
    match d
    case Accept(vad, nad, pulse, comment) =>
      var reply := if pulse == None then Gotit2(vad, nad) else Gotit3(vad, nad, pulse.value);
      var e := [WriteReading(vad, nad, pulse, comment), StoreAction(message, "data_accepted"), Send(reply)];
      assert e[0].WriteReading? && e[2].Send?;
      e
    case Reject(vad, nad) =>
      var e := [StoreAction(message, "data_rejected"), Send(CheckFail(vad, nad))];
      assert e[1].Send?;
      e
    case Chat(intent) =>
      var talk := TalkEffects(intent);
      var e := talk + [StoreAction(message, "talk")];
      assert e[|talk| - 1].Send?;
      e
  }

  /** `conversation`: parse, then branch on the error code. */
  method Conversation(message: string, limits: Limits, dict: Dictionary) returns (effects: seq<Effect>)
    ensures effects == Effects(Route(message, limits, dict), message)
  {
    var p := Parse(message, limits);
    ghost var d := Route(message, limits, dict);
    if p.code == 0 {
      assert d == Accept(p.vad.value, p.nad.value, p.pulse, p.comment);
      effects := [WriteReading(p.vad.value, p.nad.value, p.pulse, p.comment)];
      var reply := if p.pulse == None then Gotit2(p.vad.value, p.nad.value)
                   else Gotit3(p.vad.value, p.nad.value, p.pulse.value);
      effects := effects + [StoreAction(message, "data_accepted"), Send(reply)];
    } else if p.code == 1 {
      assert d == Reject(p.vad, p.nad);
      effects := [StoreAction(message, "data_rejected"), Send(CheckFail(p.vad, p.nad))];
    } else {
      var intent := Talk(message, dict);
      assert d == Chat(intent);
      effects := TalkEffects(intent) + [StoreAction(message, "talk")];
    }
  }

  // ---------------------------------------------------------------------
  // Routing in terms of the message
  // ---------------------------------------------------------------------

  /** A message goes to `talk` exactly when none of its words is digit-only. */
  lemma NoNumbersTalk(message: string, limits: Limits, dict: Dictionary)
    ensures Route(message, limits, dict).Chat?
            <==> forall i :: 0 <= i < |Words(message)| ==> !IsDigits(Words(message)[i])
    ensures Route(message, limits, dict).Chat? ==> Route(message, limits, dict) == Chat(TalkIntent(message, dict))
  {
    NoNumbers(message, limits);
  }

  /** A single digit-only word is rejected without a reading to show. */
  lemma OneNumberRejected(message: string, limits: Limits, dict: Dictionary, i: nat)
    requires i < |Words(message)| && IsDigits(Words(message)[i])
    requires forall j :: 0 <= j < |Words(message)| && j != i ==> !IsDigits(Words(message)[j])
    ensures Route(message, limits, dict) == Reject(None, None)
  {
    OneNumber(message, limits, i);
  }

  /** A reading is stored exactly when there are two numbers and the first
      two pass the strict blood-pressure test; the reply names the pulse
      exactly when one was kept. */
  lemma AcceptedIff(message: string, limits: Limits, dict: Dictionary)
    ensures var vs := Values(Words(message));
            Route(message, limits, dict).Accept? <==> |vs| >= 2 && BloodPressureOk(vs[0], vs[1], limits)
    ensures var d := Route(message, limits, dict);
            d.Accept? ==> Send(if d.pulse.None? then Gotit2(d.vad, d.nad) else Gotit3(d.vad, d.nad, d.pulse.value))
                          in Effects(d, message)
    ensures var d := Route(message, limits, dict);
            d.Accept? ==> d.pulse.None? || PulseOk(d.pulse.value, limits)
  {
  }

  /** "s d" is stored as s/d when `MAX_BP > s > d > MIN_BP`, and otherwise
      rejected showing s and d. */
  lemma TwoNumbersRouted(s: nat, d: nat, limits: Limits, dict: Dictionary)
    ensures Route(DecimalString(s) + " " + DecimalString(d), limits, dict)
            == if BloodPressureOk(s, d, limits) then Accept(s, d, None, "") else Reject(Some(s), Some(d))
  {
    TwoNumbers(s, d, limits);
  }

  /** "s d p": a pulse outside its limits is dropped, never rejected. */
  lemma ThreeNumbersRouted(s: nat, d: nat, pulse: nat, limits: Limits, dict: Dictionary)
    requires BloodPressureOk(s, d, limits)
    ensures Route(DecimalString(s) + " " + DecimalString(d) + " " + DecimalString(pulse), limits, dict)
            == Accept(s, d, if PulseOk(pulse, limits) then Some(pulse) else None, "")
  {
    ThreeNumbers(s, d, pulse, limits);
  }

  /** "130 85 70 feeling ok" under limits 200/40 and 200/30 is stored with
      pulse 70 and comment "feeling ok", then confirmed with `Gotit3`. */
  lemma ExampleConversation(dict: Dictionary)
    ensures Effects(Route("130 85 70 feeling ok", Limits(200, 40, 200, 30), dict), "130 85 70 feeling ok")
            == [WriteReading(130, 85, Some(70), "feeling ok"),
                StoreAction("130 85 70 feeling ok", "data_accepted"),
                Send(Gotit3(130, 85, 70))]
  {
    ExampleReading();
  }

  /** "hi 120 foo 80 bar" under limits 200/40 and 200/30 is stored as
      120/80 without pulse, with the text words as comment, and confirmed
      with `Gotit2`. */
  lemma ExampleCommentRouted(dict: Dictionary)
    ensures Effects(Route("hi 120 foo 80 bar", Limits(200, 40, 200, 30), dict), "hi 120 foo 80 bar")
            == [WriteReading(120, 80, None, "hi foo bar"),
                StoreAction("hi 120 foo 80 bar", "data_accepted"),
                Send(Gotit2(120, 80))]
  {
    ExampleComment(Limits(200, 40, 200, 30));
  }
}
