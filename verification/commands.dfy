/** Command dispatch: deciding from a message body whether the bot was asked a
    question (bot.js, the 'message' handler, lines 125-137). */
module Commands {
  import opened Results
  import opened Text

  /** The command token; matched against the lower-cased body. */
  const CommandPrefix: string := "!ia"

  /** What the handler does with a message body. */
  datatype Dispatch =
    | Ignore                      // not a command: no reply at all
    | EmptyArgument               // the command with nothing after it
    | Command(question: string)   // the question to answer

  /** A body is a command exactly when it opens with '!', then 'i' or 'I', then
      'a' or 'A'; nothing is required of the character after that. */
  predicate Triggers(body: string) {
    && |body| >= 3
    && body[0] == '!'
    && (body[1] == 'i' || body[1] == 'I')
    && (body[2] == 'a' || body[2] == 'A')
  }

  /** A body that is a command with something other than whitespace after the prefix. */
  predicate HasQuestion(body: string) {
    Triggers(body) && !AllWhitespace(body[|CommandPrefix|..])
  }

  /** The case-insensitive prefix test is the character test of `Triggers`. */
  lemma PrefixTestIsTriggers(body: string)
    ensures StartsWith(Lower(body), CommandPrefix) <==> Triggers(body)
  {
    var l := Lower(body);
    if |body| >= 3 {
      assert l[..3] == [l[0], l[1], l[2]];
      assert CommandPrefix == ['!', 'i', 'a'];
    }
  }

  /** The remainder of a command body once the prefix is cut off and the rest trimmed. */
  function Argument(body: string): (q: string)
    requires Triggers(body)
    ensures IsTrimOf(q, body[|CommandPrefix|..])
    ensures q == [] <==> AllWhitespace(body[|CommandPrefix|..])
  {
    Trim(body[|CommandPrefix|..])
  }

  /** Classifies a message body; `None` is a message without a body. */
  function Classify(body: Option<string>): (d: Dispatch)
    ensures d.Ignore? <==> !(body.Some? && Triggers(body.value))
    ensures d.EmptyArgument? <==> body.Some? && Triggers(body.value) && AllWhitespace(body.value[|CommandPrefix|..])
    ensures d.Command? ==> body.Some? && Triggers(body.value) && d.question == Argument(body.value)
    ensures d.Command? ==> d.question != [] && IsTrimOf(d.question, body.value[|CommandPrefix|..])
  {
    if body.None? || body.value == [] then Ignore
    else
      PrefixTestIsTriggers(body.value);
      if !StartsWith(Lower(body.value), CommandPrefix) then Ignore
      else
        var prompt := Argument(body.value);
        if prompt == [] then EmptyArgument else Command(prompt)
  }

  /** A body that triggers and has something after the prefix is a command
      carrying its argument. */
  lemma CommandOfArgument(body: string)
    requires HasQuestion(body)
    ensures Classify(Some(body)) == Command(Argument(body))
  {
  }

  /** The question of a command is a contiguous piece of the body, after the
      prefix, with no whitespace at either end. */
  lemma QuestionIsTrimmedPiece(body: string)
    requires HasQuestion(body)
    ensures var q := Argument(body);
      && q != []
      && !IsWhitespace(q[0]) && !IsWhitespace(q[|q| - 1])
      && exists lo, hi :: |CommandPrefix| <= lo <= hi <= |body| && q == body[lo..hi]
  {
    var n := |CommandPrefix|;
    var q := Argument(body);
    var rest := body[n..];
    var lo, hi :| TrimmedAt(q, rest, lo, hi);
    assert q == rest[lo..hi];
    assert forall i :: 0 <= i < hi - lo ==> rest[lo..hi][i] == body[n + lo..n + hi][i];
  }

  /** The argument of a body that already has no whitespace around it, after the prefix. */
  lemma ArgumentOfTrimmed(body: string)
    requires Triggers(body)
    requires |body| > |CommandPrefix| && !IsWhitespace(body[|CommandPrefix|])
    requires !IsWhitespace(body[|body| - 1])
    ensures Argument(body) == body[|CommandPrefix|..]
  {
    var rest := body[|CommandPrefix|..];
    assert TrimmedAt(rest, rest, 0, |rest|) by {
      assert rest[..0] == [] && rest[|rest|..] == [] && rest[0..|rest|] == rest;
    }
    TrimUnique(Argument(body), rest, rest);
  }

  /** The prefix needs no space after it. */
  lemma ClassifyGlued()
    ensures Classify(Some("!iax")) == Command("x")
  {
    assert "!iax"[3..] == "x";
    ArgumentOfTrimmed("!iax");
    CommandOfArgument("!iax");
  }

  /** The prefix is matched case-insensitively. */
  lemma ClassifyUpperCase()
    ensures Classify(Some("!IA x")) == Command("x")
  {
    var spaced := "!IA x";
    assert spaced[3..] == " x";
    assert TrimmedAt("x", " x", 1, 2) by {
      assert " x"[1..2] == "x" && " x"[..1] == " " && " x"[2..] == [];
    }
    TrimUnique(Argument(spaced), "x", " x");
    CommandOfArgument(spaced);
  }

  /** Only whitespace after the prefix is an empty argument. */
  lemma ClassifyBlank()
    ensures Classify(Some("!ia   ")) == EmptyArgument
  {
    assert "!ia   "[3..] == "   ";
  }

  /** The prefix must open the body. */
  lemma ClassifyIndented()
    ensures Classify(Some(" !ia x")) == Ignore
    ensures Classify(None) == Ignore
  {
    assert !Triggers(" !ia x");
  }
}
