/**
 * `parse` from mbot.py: a message is split on single spaces, digit-only
 * words become the numeric `values` and every other word goes to the
 * comment; the number of values decides the shape of the reading and the
 * first two values are checked against the blood-pressure limits, the
 * third against the pulse limits.
 */
module Parsing {
  import opened Wrappers
  import opened Strings

  /** The four limits of the `LIMITS` configuration section. Nothing
      requires a maximum to exceed its minimum. */
  datatype Limits = Limits(maxBp: int, minBp: int, maxPulse: int, minPulse: int)

  /** The tuple `(vad, nad, pulse, error_code, comment)` that `parse` returns:
      `code` is 0 for an accepted reading, 1 for a rejected one and -1 when
      the message holds no number at all. */
  datatype Parsed = Parsed(vad: Option<int>, nad: Option<int>, pulse: Option<int>, code: int, comment: string)

  /** The words of a message: `message.split(' ')`. */
  function Words(message: string): seq<string>
  {
    Split(message, ' ')
  }

  /** The values `parse` collects from `words`, in order (`int(word)` of each digit-only word). */
  function Values(words: seq<string>): seq<nat>
  {
    if words == [] then []
    else
      var last := words[|words| - 1];
      Values(words[..|words| - 1]) + (if IsDigits(last) then [DecimalValue(last)] else [])
  }

  /** The words `parse` keeps for the comment, in order. */
  function Others(words: seq<string>): seq<string>
  {
    if words == [] then []
    else
      var last := words[|words| - 1];
      Others(words[..|words| - 1]) + (if IsDigits(last) then [] else [last])
  }

  /** The strict chained test `MAX_BP > vad > nad > MIN_BP`. */
  predicate BloodPressureOk(vad: int, nad: int, limits: Limits)
  {
    limits.maxBp > vad > nad > limits.minBp
  }

  /** The strict chained test `MAX_PULSE > pulse > MIN_PULSE`. */
  predicate PulseOk(pulse: int, limits: Limits)
  {
    limits.maxPulse > pulse > limits.minPulse
  }

  /** What `parse` makes of the collected values and comment words. */
  function Shape(values: seq<nat>, others: seq<string>, limits: Limits): (p: Parsed)
    ensures p.code == -1 <==> values == []
    ensures p.code == 0 <==> |values| >= 2 && BloodPressureOk(values[0], values[1], limits)
    ensures p.code == 1 <==> |values| == 1 || (|values| >= 2 && !BloodPressureOk(values[0], values[1], limits))
    ensures p.vad.Some? <==> |values| >= 2
    ensures p.nad.Some? <==> |values| >= 2
    ensures |values| >= 2 ==> p.vad == Some(values[0]) && p.nad == Some(values[1])
    ensures p.pulse.Some? <==> |values| >= 3 && PulseOk(values[2], limits)
    ensures p.pulse.Some? ==> p.pulse.value == values[2]
    ensures p.comment == Join(others, ' ')
  {
    var code :=
      if |values| == 0 then -1
      else if |values| == 1 then 1
      else if BloodPressureOk(values[0], values[1], limits) then 0
      else 1;
    var vad := if |values| >= 2 then Some(values[0] as int) else None;
    var nad := if |values| >= 2 then Some(values[1] as int) else None;
    var pulse := if |values| >= 3 && PulseOk(values[2], limits) then Some(values[2] as int) else None;
    Parsed(vad, nad, pulse, code, Join(others, ' '))
  }

  /** The result of `parse(message)`, as a function of the message and the limits. */
  function ParseSpec(message: string, limits: Limits): Parsed
  {
    var ws := Words(message);
    Shape(Values(ws), Others(ws), limits)
  }

  /** `parse`: the loop sorts every word into `values` or `others`, then the
      branches on `len(values)` fill in the reading. */
  method Parse(message: string, limits: Limits) returns (p: Parsed)
    ensures p == ParseSpec(message, limits)
  {
    var vad: Option<int>, nad: Option<int>, pulse: Option<int> := None, None, None;
    var words := Split(message, ' ');
    var code := 0;

    var values: seq<nat> := [];
    var others: seq<string> := [];
    for i := 0 to |words|
      invariant values == Values(words[..i])
      invariant others == Others(words[..i])
    {
      assert words[..i + 1][..i] == words[..i];
      var word := words[i];
      if IsDigits(word) {
        values := values + [DecimalValue(word)];
      } else {
        others := others + [word];
      }
    }
    assert words[..|words|] == words;
    if |values| == 0 {
      code := -1;
    } else if |values| == 1 {
      code := 1;
    } else if |values| >= 2 {
      vad, nad := Some(values[0]), Some(values[1]);
      if limits.maxBp > values[0] > values[1] > limits.minBp {
        code := 0;
      } else {
        code := 1;
      }
    }
    if |values| >= 3 {
      if limits.maxPulse > values[2] > limits.minPulse {
        pulse := Some(values[2]);
      }
    }
    p := Parsed(vad, nad, pulse, code, Join(others, ' '));
  }

  // ---------------------------------------------------------------------
  // Tokenising: every word lands in exactly one list, in order
  // ---------------------------------------------------------------------

  /** Each word goes to exactly one of the two lists. */
  lemma {:induction false} PartitionCount(words: seq<string>)
    ensures |Values(words)| + |Others(words)| == |words|
  {
    if words != [] {
      PartitionCount(words[..|words| - 1]);
    }
  }

  /** Both lists keep the original order: classifying `a + b` classifies
      `a`, then `b`. */
  lemma {:induction false} ClassifyAppend(a: seq<string>, b: seq<string>)
    ensures Values(a + b) == Values(a) + Values(b)
    ensures Others(a + b) == Others(a) + Others(b)
  {
    if b != [] {
      var ab := a + b;
      assert ab[..|ab| - 1] == a + b[..|b| - 1];
      ClassifyAppend(a, b[..|b| - 1]);
    } else {
      assert a + b == a;
    }
  }

  /** Every comment word comes from the message and is not digit-only;
      every value is the decimal value of a digit-only word of the message. */
  lemma {:induction false} ClassifySources(words: seq<string>)
    ensures forall j :: 0 <= j < |Others(words)| ==> Others(words)[j] in words && !IsDigits(Others(words)[j])
    ensures forall j :: 0 <= j < |Values(words)| ==> ValueOfSomeWord(words, Values(words)[j])
  {
    if words != [] {
      var init := words[..|words| - 1];
      ClassifySources(init);
      forall j | 0 <= j < |Values(words)|
        ensures ValueOfSomeWord(words, Values(words)[j])
      {
        if j < |Values(init)| {
          var i :| 0 <= i < |init| && IsDigits(init[i]) && DecimalValue(init[i]) == Values(init)[j];
          assert words[i] == init[i];
        } else {
          var last := words[|words| - 1];
          assert IsDigits(last) && Values(words) == Values(init) + [DecimalValue(last)];
          assert IsDigits(words[|words| - 1]) && DecimalValue(words[|words| - 1]) == Values(words)[j];
        }
      }
    }
  }

  /** `v` is the value of some digit-only word of `words`. */
  predicate ValueOfSomeWord(words: seq<string>, v: nat)
  {
    exists i :: 0 <= i < |words| && IsDigits(words[i]) && DecimalValue(words[i]) == v
  }

  /** No values at all exactly when no word is digit-only. */
  lemma {:induction false} NoValuesIff(words: seq<string>)
    ensures Values(words) == [] <==> forall i :: 0 <= i < |words| ==> !IsDigits(words[i])
  {
    if words != [] {
      var init := words[..|words| - 1];
      NoValuesIff(init);
      if Values(words) == [] {
        forall i | 0 <= i < |words|
          ensures !IsDigits(words[i])
        {
          if i < |init| {
            assert words[i] == init[i];
          }
        }
      }
    }
  }

  /** With no digit-only word, the comment words are all the words. */
  lemma {:induction false} OthersAllText(words: seq<string>)
    requires forall i :: 0 <= i < |words| ==> !IsDigits(words[i])
    ensures Others(words) == words
  {
    if words != [] {
      var init := words[..|words| - 1];
      OthersAllText(init);
      assert init + [words[|words| - 1]] == words;
    }
  }

  // ---------------------------------------------------------------------
  // The comment
  // ---------------------------------------------------------------------

  /** The comment splits back into exactly the non-numeric words when there
      are any, and no piece of it is ever digit-only. */
  lemma CommentWords(message: string, limits: Limits)
    ensures Others(Words(message)) != [] ==> Split(ParseSpec(message, limits).comment, ' ') == Others(Words(message))
    ensures forall t :: t in Split(ParseSpec(message, limits).comment, ' ') ==> !IsDigits(t)
  {
    var ws := Words(message);
    var others := Others(ws);
    ClassifySources(ws);
    if others != [] {
      SplitJoin(others, ' ');
    } else {
      assert Split(Join(others, ' '), ' ') == [""];
    }
  }

  // ---------------------------------------------------------------------
  // The shapes of a reading, in terms of the message
  // ---------------------------------------------------------------------

  /** No digit-only word: code -1 and no reading; and only then. */
  lemma NoNumbers(message: string, limits: Limits)
    ensures ParseSpec(message, limits).code == -1
            <==> forall i :: 0 <= i < |Words(message)| ==> !IsDigits(Words(message)[i])
    ensures ParseSpec(message, limits).code == -1 ==>
              var p := ParseSpec(message, limits);
              p.vad == None && p.nad == None && p.pulse == None && p.comment == message
  {
    var ws := Words(message);
    NoValuesIff(ws);
    if ParseSpec(message, limits).code == -1 {
      OthersAllText(ws);
      JoinSplit(message, ' ');
    }
  }

  /** Exactly one digit-only word: code 1 and no reading, whatever its value. */
  lemma OneNumber(message: string, limits: Limits, i: nat)
    requires i < |Words(message)| && IsDigits(Words(message)[i])
    requires forall j :: 0 <= j < |Words(message)| && j != i ==> !IsDigits(Words(message)[j])
    ensures var p := ParseSpec(message, limits);
            p.code == 1 && p.vad == None && p.nad == None && p.pulse == None
  {
    var ws := Words(message);
    var a, b := ws[..i], ws[i + 1..];
    assert ws == a + [ws[i]] + b;
    assert forall j :: 0 <= j < |a| ==> a[j] == ws[j];
    assert forall j :: 0 <= j < |b| ==> b[j] == ws[i + 1 + j];
    NoValuesIff(a);
    NoValuesIff(b);
    ClassifyAppend(a, [ws[i]]);
    ClassifyAppend(a + [ws[i]], b);
    assert Values([ws[i]]) == Values([]) + [DecimalValue(ws[i])];
  }

  /** The classification of a single word. */
  lemma ClassifyOne(w: string)
    ensures Values([w]) == (if IsDigits(w) then [DecimalValue(w)] else [])
    ensures Others([w]) == (if IsDigits(w) then [] else [w])
  {
    assert [w][..0] == [];
  }

  /** A message written as space-joined words parses those words. */
  lemma ParseOfWords(ws: seq<string>, limits: Limits)
    requires ws != []
    requires forall i :: 0 <= i < |ws| ==> ' ' !in ws[i]
    ensures ParseSpec(Join(ws, ' '), limits) == Shape(Values(ws), Others(ws), limits)
  {
    SplitJoin(ws, ' ');
  }

  /** The message "s d": its two numbers are the reading, accepted exactly
      when the strict bounds hold, with no pulse and an empty comment. */
  lemma TwoNumbers(s: nat, d: nat, limits: Limits)
    ensures ParseSpec(DecimalString(s) + " " + DecimalString(d), limits)
            == Parsed(Some(s), Some(d), None, if BloodPressureOk(s, d, limits) then 0 else 1, "")
  {
    var a, b := DecimalString(s), DecimalString(d);
    DecimalRoundTrip(s);
    DecimalRoundTrip(d);
    SplitConcat(a, b, ' ');
    SplitSeparatorFree(a, ' ');
    SplitSeparatorFree(b, ' ');
    ClassifyOne(a);
    ClassifyOne(b);
    ClassifyAppend([a], [b]);
  }

  /** The message "s d p": as for "s d", and the pulse is kept exactly when
      it is strictly inside its own limits, without touching the verdict. */
  lemma ThreeNumbers(s: nat, d: nat, pulse: nat, limits: Limits)
    ensures ParseSpec(DecimalString(s) + " " + DecimalString(d) + " " + DecimalString(pulse), limits)
            == Parsed(Some(s), Some(d), if PulseOk(pulse, limits) then Some(pulse) else None,
                      if BloodPressureOk(s, d, limits) then 0 else 1, "")
  {
    var a, b, c := DecimalString(s), DecimalString(d), DecimalString(pulse);
    DecimalRoundTrip(s);
    DecimalRoundTrip(d);
    DecimalRoundTrip(pulse);
    SplitConcat(a, b, ' ');
    SplitConcat(a + " " + b, c, ' ');
    SplitSeparatorFree(a, ' ');
    SplitSeparatorFree(b, ' ');
    SplitSeparatorFree(c, ' ');
    assert Words(a + " " + b + " " + c) == [a] + [b] + [c];
    ClassifyOne(a);
    ClassifyOne(b);
    ClassifyOne(c);
    ClassifyAppend([a], [b]);
    ClassifyAppend([a] + [b], [c]);
    assert Values([a] + [b] + [c]) == [s, d, pulse];
    assert Others([a] + [b] + [c]) == [];
  }

  /** Digit-only words after the third are dropped entirely: appending one
      changes nothing, not even the comment. */
  lemma ExtraNumberIgnored(message: string, w: string, limits: Limits)
    requires |Values(Words(message))| >= 3
    requires IsDigits(w)
    ensures ParseSpec(message + " " + w, limits) == ParseSpec(message, limits)
  {
    DigitsHaveNoSpace(w);
    SplitConcat(message, w, ' ');
    SplitSeparatorFree(w, ' ');
    assert Words(message + " " + w) == Words(message) + [w];
    ClassifyAppend(Words(message), [w]);
    ClassifyOne(w);
    var v := Values(Words(message));
    assert Values(Words(message + " " + w)) == v + [DecimalValue(w)];
    assert Others(Words(message + " " + w)) == Others(Words(message));
  }

  /** The pulse limits never change the verdict on the blood pressure. */
  lemma PulseNeverDecides(message: string, limits: Limits, maxPulse: int, minPulse: int)
    ensures ParseSpec(message, limits.(maxPulse := maxPulse, minPulse := minPulse)).code
            == ParseSpec(message, limits).code
  {
  }

  /** The example reading "130 85 70 feeling ok" under limits 200/40 and 200/30. */
  lemma ExampleReading()
    ensures ParseSpec("130 85 70 feeling ok", Limits(200, 40, 200, 30))
            == Parsed(Some(130), Some(85), Some(70), 0, "feeling ok")
  {
    var ws := ["130", "85", "70", "feeling", "ok"];
    ExampleReadingText(ws);
    ExampleReadingValues(ws);
    ParseOfWords(ws, Limits(200, 40, 200, 30));
    assert Join(["feeling", "ok"], ' ') == "feeling ok";
  }

  lemma ExampleReadingText(ws: seq<string>)
    requires ws == ["130", "85", "70", "feeling", "ok"]
    ensures Join(ws, ' ') == "130 85 70 feeling ok"
  {
    assert ws[1..] == ["85", "70", "feeling", "ok"];
    assert ws[1..][1..] == ["70", "feeling", "ok"];
    assert ws[1..][1..][1..] == ["feeling", "ok"];
    assert ws[1..][1..][1..][1..] == ["ok"];
    assert Join(["feeling", "ok"], ' ') == "feeling ok";
    assert Join(["70", "feeling", "ok"], ' ') == "70 feeling ok";
    assert Join(["85", "70", "feeling", "ok"], ' ') == "85 70 feeling ok";
  }

  lemma ExampleReadingValues(ws: seq<string>)
    requires ws == ["130", "85", "70", "feeling", "ok"]
    ensures Values(ws) == [130, 85, 70]
    ensures Others(ws) == ["feeling", "ok"]
  {
    ExampleReadingDigits();
    assert ws[..4][..3] == ws[..3];
    assert ws[..5] == ws;
    ExampleReadingPrefix(ws[..3]);
    assert Values(ws[..4]) == [130, 85, 70] && Others(ws[..4]) == ["feeling"];
  }

  lemma ExampleReadingPrefix(ws: seq<string>)
    requires ws == ["130", "85", "70"]
    ensures Values(ws) == [130, 85, 70] && Others(ws) == []
  {
    ExampleReadingDigits();
    assert ws[..3] == ws;
    assert ws[..2][..1] == ws[..1];
    assert ws[..1][..0] == [];
    assert Values(ws[..1]) == [130] && Others(ws[..1]) == [];
    assert Values(ws[..2]) == [130, 85] && Others(ws[..2]) == [];
  }

  lemma ExampleReadingDigits()
    ensures IsDigits("130") && DecimalValue("130") == 130
    ensures IsDigits("85") && DecimalValue("85") == 85
    ensures IsDigits("70") && DecimalValue("70") == 70
    ensures !IsDigits("feeling") && !IsDigits("ok")
  {
    assert "130"[..2] == "13";
    assert "13"[..1] == "1";
    assert "1"[..0] == "";
    assert "85"[..1] == "8";
    assert "8"[..0] == "";
    assert "70"[..1] == "7";
    assert "7"[..0] == "";
    assert !IsDigitChar("ok"[0]);
    assert !IsDigitChar("feeling"[0]);
  }

  /** The comment keeps the text words in order around the numbers:
      "hi 120 foo 80 bar" reads 120/80 with comment "hi foo bar". */
  lemma ExampleComment(limits: Limits)
    ensures var p := ParseSpec("hi 120 foo 80 bar", limits);
            p.vad == Some(120) && p.nad == Some(80) && p.pulse == None && p.comment == "hi foo bar"
  {
    var ws := ["hi", "120", "foo", "80", "bar"];
    ExampleCommentText(ws);
    ExampleCommentValues(ws);
    ParseOfWords(ws, limits);
    ExampleCommentJoin(["hi", "foo", "bar"]);
  }

  lemma ExampleCommentJoin(others: seq<string>)
    requires others == ["hi", "foo", "bar"]
    ensures Join(others, ' ') == "hi foo bar"
  {
    assert others[1..] == ["foo", "bar"];
    assert others[1..][1..] == ["bar"];
    assert Join(["foo", "bar"], ' ') == "foo bar";
  }

  lemma ExampleCommentText(ws: seq<string>)
    requires ws == ["hi", "120", "foo", "80", "bar"]
    ensures Join(ws, ' ') == "hi 120 foo 80 bar"
  {
    assert ws[1..] == ["120", "foo", "80", "bar"];
    assert ws[1..][1..] == ["foo", "80", "bar"];
    assert ws[1..][1..][1..] == ["80", "bar"];
    assert ws[1..][1..][1..][1..] == ["bar"];
    assert Join(["80", "bar"], ' ') == "80 bar";
    assert Join(["foo", "80", "bar"], ' ') == "foo 80 bar";
    assert Join(["120", "foo", "80", "bar"], ' ') == "120 foo 80 bar";
  }

  lemma ExampleCommentValues(ws: seq<string>)
    requires ws == ["hi", "120", "foo", "80", "bar"]
    ensures Values(ws) == [120, 80]
    ensures Others(ws) == ["hi", "foo", "bar"]
  {
    ExampleCommentDigits();
    assert ws[..4][..3] == ws[..3];
    assert ws[..5] == ws;
    ExampleCommentPrefix(ws[..3]);
    assert Values(ws[..4]) == [120, 80] && Others(ws[..4]) == ["hi", "foo"];
  }

  lemma ExampleCommentPrefix(ws: seq<string>)
    requires ws == ["hi", "120", "foo"]
    ensures Values(ws) == [120] && Others(ws) == ["hi", "foo"]
  {
    ExampleCommentDigits();
    assert ws[..3] == ws;
    assert ws[..2][..1] == ws[..1];
    assert ws[..1][..0] == [];
    assert Values(ws[..1]) == [] && Others(ws[..1]) == ["hi"];
    assert Values(ws[..2]) == [120] && Others(ws[..2]) == ["hi"];
  }

  lemma ExampleCommentDigits()
    ensures IsDigits("120") && DecimalValue("120") == 120
    ensures IsDigits("80") && DecimalValue("80") == 80
    ensures !IsDigits("hi") && !IsDigits("foo") && !IsDigits("bar")
  {
    assert "120"[..2] == "12";
    assert "12"[..1] == "1";
    assert "1"[..0] == "";
    assert "80"[..1] == "8";
    assert "8"[..0] == "";
    assert !IsDigitChar("hi"[0]);
    assert !IsDigitChar("foo"[0]);
    assert !IsDigitChar("bar"[0]);
  }
}
