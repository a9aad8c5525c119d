/**
 * The word scan of `talk` in mbot.py: a message with no number is
 * lowercased, stripped of `!:),*;-` at its two ends and split on single
 * spaces; the first word found inside the `Hello` dictionary entry, or else
 * inside the `Help` entry, decides the reply.
 *
 * The test on a word is Python's `word in entry` on the raw entry string,
 * a substring test: a fragment of a keyword matches, and so does the empty
 * word.
 */
module Intents {
  import opened Strings

  /** The `Hello` and `Help` entries of the `DICTIONARY` configuration section, as raw text. */
  datatype Dictionary = Dictionary(hello: string, help: string)

  /** Which reply `talk` sends: the `Hello` dialog, the help text, or `Nocomprene`. */
  datatype Intent = Hello | Help | NoComprene

  /** The characters `talk` strips from both ends of the message. */
  const Punctuation: set<char> := {'!', ':', ')', ',', '*', ';', '-'}

  /** `message.lower().strip('!:),*;-').split(' ')`. */
  function Normalize(message: string): (words: seq<string>)
    ensures |words| >= 1
  {
    Split(Strip(Lower(message), Punctuation), ' ')
  }

  /** A word that either dictionary entry contains. */
  predicate Matches(word: string, dict: Dictionary)
  {
    Contains(dict.hello, word) || Contains(dict.help, word)
  }

  /** The scan of `talk`: word by word, `Hello` is tested before `Help`,
      and the first word that passes either test decides. */
  function FirstIntent(words: seq<string>, dict: Dictionary): Intent
  {
    if words == [] then NoComprene
    else if Contains(dict.hello, words[0]) then Hello
    else if Contains(dict.help, words[0]) then Help
    else FirstIntent(words[1..], dict)
  }

  /** The intent `talk` finds for a message. */
  function TalkIntent(message: string, dict: Dictionary): Intent
  {
    FirstIntent(Normalize(message), dict)
  }

  /** `talk` up to its reply: the loop returns at the first matching word. */
  method Talk(message: string, dict: Dictionary) returns (intent: Intent)
    ensures intent == TalkIntent(message, dict)
  {
    var text := Strip(Lower(message), Punctuation);
    var words := Split(text, ' ');
    for i := 0 to |words|
      invariant FirstIntent(words[i..], dict) == FirstIntent(words, dict)
    {
      assert words[i..][1..] == words[i + 1..];
      var word := words[i];
      if Contains(dict.hello, word) {
        return Hello;
      } else if Contains(dict.help, word) {
        return Help;
      }
    }
    return NoComprene;
  }

  /** Word `i` is the first word of `words` that matches either entry. */
  predicate FirstMatchAt(words: seq<string>, dict: Dictionary, i: int)
  {
    0 <= i < |words| && Matches(words[i], dict)
    && forall j :: 0 <= j < i ==> !Matches(words[j], dict)
  }

  /** There is at most one first matching word. */
  lemma FirstMatchUnique(words: seq<string>, dict: Dictionary, i: int, k: int)
    requires FirstMatchAt(words, dict, i) && FirstMatchAt(words, dict, k)
    ensures i == k
  {
  }

  /** The scan gives `Hello` exactly when the first matching word is in the
      `Hello` entry, `Help` exactly when the first matching word is in the
      `Help` entry but not in the `Hello` entry, and `NoComprene` exactly
      when no word matches. */
  lemma {:induction false} FirstIntentCharacterized(words: seq<string>, dict: Dictionary)
    ensures FirstIntent(words, dict) == Hello
            <==> exists i :: FirstMatchAt(words, dict, i) && Contains(dict.hello, words[i])
    ensures FirstIntent(words, dict) == Help
            <==> exists i :: FirstMatchAt(words, dict, i) && !Contains(dict.hello, words[i])
    ensures FirstIntent(words, dict) == NoComprene
            <==> forall i :: 0 <= i < |words| ==> !Matches(words[i], dict)
  {
    if words != [] {
      if Matches(words[0], dict) {
        assert FirstMatchAt(words, dict, 0);
        forall i | FirstMatchAt(words, dict, i)
          ensures i == 0
        {
          FirstMatchUnique(words, dict, i, 0);
        }
      } else {
        var rest := words[1..];
        FirstIntentCharacterized(rest, dict);
        forall i | 0 < i < |words|
          ensures FirstMatchAt(words, dict, i) <==> FirstMatchAt(rest, dict, i - 1)
        {
          assert rest[i - 1] == words[i];
          if FirstMatchAt(rest, dict, i - 1) {
            forall j | 0 <= j < i
              ensures !Matches(words[j], dict)
            {
              if j > 0 {
                assert words[j] == rest[j - 1];
              }
            }
          }
          if FirstMatchAt(words, dict, i) {
            forall j | 0 <= j < i - 1
              ensures !Matches(rest[j], dict)
            {
              assert rest[j] == words[j + 1];
            }
          }
        }
        assert !FirstMatchAt(words, dict, 0);
        if exists i :: FirstMatchAt(rest, dict, i) && Contains(dict.hello, rest[i]) {
          var i :| FirstMatchAt(rest, dict, i) && Contains(dict.hello, rest[i]);
          assert FirstMatchAt(words, dict, i + 1);
        }
        if exists i :: FirstMatchAt(rest, dict, i) && !Contains(dict.hello, rest[i]) {
          var i :| FirstMatchAt(rest, dict, i) && !Contains(dict.hello, rest[i]);
          assert FirstMatchAt(words, dict, i + 1);
        }
        if forall i :: 0 <= i < |rest| ==> !Matches(rest[i], dict) {
          forall i | 0 <= i < |words|
            ensures !Matches(words[i], dict)
          {
            if i > 0 {
              assert words[i] == rest[i - 1];
            }
          }
        }
      }
    }
  }

  /** The empty word is inside every entry, so a message with an empty word
      (two spaces in a row, or a trailing space) never gets `NoComprene`. */
  lemma EmptyWordAlwaysMatches(message: string, dict: Dictionary)
    ensures TalkIntent(message, dict) == NoComprene ==>
              forall i :: 0 <= i < |Normalize(message)| ==> Normalize(message)[i] != ""
  {
    var words := Normalize(message);
    FirstIntentCharacterized(words, dict);
    if TalkIntent(message, dict) == NoComprene {
      forall i | 0 <= i < |words|
        ensures words[i] != ""
      {
        assert !Matches(words[i], dict);
        assert IsPrefix("", dict.hello);
      }
    }
  }

  /** A message made only of the stripped punctuation (the empty message
      included) normalises to the single empty word and so greets. */
  lemma PunctuationOnlyGreets(message: string, dict: Dictionary)
    requires forall i :: 0 <= i < |message| ==> message[i] in Punctuation
    ensures Normalize(message) == [""]
    ensures TalkIntent(message, dict) == Hello
  {
    var low := Lower(message);
    assert forall i :: 0 <= i < |low| ==> low[i] in Punctuation;
    assert Strip(low, Punctuation) == [];
    assert IsPrefix("", dict.hello);
  }
}
