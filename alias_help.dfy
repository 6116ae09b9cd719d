/**
 * The receive middleware that turns `<bot> <command> help` into
 * `<alias>help <command>`: it strips the bot's address from the message,
 * looks for "help" as the second or third word, and re-sends the flipped
 * request to the bot as a new message from the same user.
 *
 * The bot's respond pattern is an input (`respondMatch`, the text its regular
 * expression matched, if any); it is taken to have no capture groups, so the
 * match array written into a string is its first element.
 */
module AliasHelp {
  import opened Wrappers
  import opened JsString

  const HELP := "help"

  /** Thread metadata of a chat message, copied onto the re-sent one. */
  type Metadata = map<string, string>

  /** The parts of the middleware context the script reads. */
  datatype Context = Context(text: Option<string>, metadata: Option<Metadata>, envelopeUser: string)

  /** A `TextMessage` built by the script. */
  datatype TextMessage = TextMessage(user: string, text: string, metadata: Option<Metadata>)

  /** What the middleware decides: let the message through, re-send a flipped request, or stop. */
  datatype Outcome = PassThrough | Resend(message: TextMessage) | Stop

  /** The calls the middleware makes, in order. */
  datatype Call = Receive(message: TextMessage) | Next | Done

  /** The text with the bot's address cut out and surrounding white space trimmed, case kept. */
  function Stripped(text: string, matched: string): (r: string)
    ensures IndexOf(text, matched) == -1 ==> r == Trim(text)
    ensures IndexOf(text, matched) >= 0 ==>
              r == Trim(text[..IndexOf(text, matched)] + text[IndexOf(text, matched) + |matched|..])
    ensures r == [] || (!IsWhite(r[0]) && !IsWhite(r[|r| - 1]))
  {
    if IndexOf(text, matched) >= 0 then RemoveFirst(text, matched); Trim(ReplaceFirst(text, matched, ""))
    else Trim(ReplaceFirst(text, matched, ""))
  }

  /** `messageText`: the stripped text in lower case: the same letters up to case, none of them upper-case. */
  function Cleaned(text: string, matched: string): (r: string)
    ensures |r| == |Stripped(text, matched)|
    ensures forall i :: 0 <= i < |r| ==> !('A' <= r[i] <= 'Z')
    ensures forall i :: 0 <= i < |r| ==> LowerChar(r[i]) == LowerChar(Stripped(text, matched)[i])
  {
    var stripped := Stripped(text, matched);
    var lowered := ToLower(stripped);
    assert forall i :: 0 <= i < |lowered| ==> LowerChar(lowered[i]) == LowerChar(stripped[i]) by {
      forall i | 0 <= i < |lowered| ensures LowerChar(lowered[i]) == LowerChar(stripped[i]) {
        LowerCharIsLower(stripped[i]);
      }
    }
    lowered
  }

  /**
   * `possibleCommand`: the first space-separated word of the stripped text,
   * case kept: the longest prefix without a space.
   */
  function PossibleCommand(text: string, matched: string): (r: string)
    ensures r <= Stripped(text, matched)
    ensures ' ' !in r
    ensures |r| < |Stripped(text, matched)| ==> Stripped(text, matched)[|r|] == ' '
  {
    FirstWord(Stripped(text, matched))
  }

  /** The message text is present and not empty (JavaScript truthiness). */
  predicate HasText(ctx: Context) {
    ctx.text.Some? && ctx.text.value != ""
  }

  /** "help" occurs in the cleaned text, and not at its start. */
  predicate HelpAfterStart(text: string, matched: string) {
    IndexOf(Cleaned(text, matched), HELP) > 0
  }

  /** The word index of "help" in the cleaned text split on single spaces, -1 when no word is exactly "help". */
  function HelpWordIndex(text: string, matched: string): int {
    SeqIndexOf(Split(Cleaned(text, matched), ' '), HELP)
  }

  /** `flippedHelpRequest`: "help", a space, and the first word of the stripped text. */
  function FlippedHelpRequest(text: string, matched: string): (r: string)
    ensures |r| >= 5 && r[..5] == "help "
    ensures r[5..] <= Stripped(text, matched) && ' ' !in r[5..]
    ensures |r| - 5 < |Stripped(text, matched)| ==> Stripped(text, matched)[|r| - 5] == ' '
  {
    var command := PossibleCommand(text, matched);
    assert ("help " + command)[5..] == command;
    "help " + command
  }

  /** The middleware's decision, as the script writes it. */
  function Decide(ctx: Context, alias: string, respondMatch: string -> Option<string>): (o: Outcome)
    ensures !HasText(ctx) ==> o == PassThrough
    ensures HasText(ctx) && respondMatch(ctx.text.value).None? ==> o == PassThrough
    ensures (HasText(ctx) && respondMatch(ctx.text.value).Some? &&
             !HelpAfterStart(ctx.text.value, respondMatch(ctx.text.value).value)) ==> o == PassThrough
    ensures o.Resend? ==>
              && HasText(ctx) && respondMatch(ctx.text.value).Some?
              && var text, matched := ctx.text.value, respondMatch(ctx.text.value).value;
              && HelpAfterStart(text, matched)
              && HelpWordIndex(text, matched) <= 2
              && o.message == TextMessage(ctx.envelopeUser, alias + FlippedHelpRequest(text, matched), ctx.metadata)
  {
    if !HasText(ctx) then PassThrough
    else
      var text := ctx.text.value;
      match respondMatch(text)
      case None => PassThrough
      case Some(matched) =>
        if !HelpAfterStart(text, matched) then PassThrough
        else if HelpWordIndex(text, matched) <= 2 then
          if FlippedHelpRequest(text, matched) == "help help" then Stop
          else Resend(TextMessage(ctx.envelopeUser, alias + FlippedHelpRequest(text, matched), ctx.metadata))
        else PassThrough
  }

  /** The calls made for a decision: a re-send is followed by `next()`. */
  function Calls(o: Outcome): (calls: seq<Call>)
    ensures |calls| >= 1 && (calls[|calls| - 1] == Next || calls[|calls| - 1] == Done)
    ensures forall i :: 0 <= i < |calls| - 1 ==> calls[i].Receive?
    ensures o.Resend? <==> exists m :: Receive(m) in calls
    ensures Done in calls <==> o.Stop?
    ensures forall m :: Receive(m) in calls ==> o.Resend? && m == o.message
  {
    match o
    case PassThrough => [Next]
    case Resend(message) => [Receive(message), Next]
    case Stop => [Done]
  }

  /**
   * The middleware: its decision carried out as calls. It always ends by
   * calling `next()`, never `done()`, and re-sends at most one message, from
   * the same user with the same metadata, exactly when the two position
   * checks pass.
   */
  function Middleware(ctx: Context, alias: string, respondMatch: string -> Option<string>): (calls: seq<Call>)
    ensures calls == [Next] || (|calls| == 2 && calls[0].Receive? && calls[1] == Next)
    ensures Done !in calls
    ensures forall m :: Receive(m) in calls ==> m.user == ctx.envelopeUser && m.metadata == ctx.metadata
    ensures (exists m :: Receive(m) in calls) <==>
              && HasText(ctx) && respondMatch(ctx.text.value).Some?
              && HelpAfterStart(ctx.text.value, respondMatch(ctx.text.value).value)
              && HelpWordIndex(ctx.text.value, respondMatch(ctx.text.value).value) <= 2
  {
    HelpHelpUnreachable(ctx, alias, respondMatch);
    ResendExactlyWhen(ctx, alias, respondMatch);
    Calls(Decide(ctx, alias, respondMatch))
  }

  /** A text whose first word is "help" begins with "help". */
  lemma FirstWordHelp(t: string)
    requires FirstWord(t) == HELP
    ensures OccursAt(t, HELP, 0)
  {
    assert t[..4] == HELP;
  }

  /** Lowering a text that begins with "help" leaves "help" at its start. */
  lemma LowerKeepsHelp(t: string)
    requires OccursAt(t, HELP, 0)
    ensures OccursAt(ToLower(t), HELP, 0)
  {
    ToLowerPrefix(t, 4);
    assert ToLower(t)[..4] == ToLower(HELP);
    assert ToLower(HELP) == HELP;
  }

  /** When "help" follows the start of the cleaned text, the possible command is not "help". */
  lemma CommandIsNotHelp(text: string, matched: string)
    requires HelpAfterStart(text, matched)
    ensures PossibleCommand(text, matched) != HELP
    ensures FlippedHelpRequest(text, matched) != "help help"
  {
    assert FlippedHelpRequest(text, matched)[5..] == PossibleCommand(text, matched);
    if PossibleCommand(text, matched) == HELP {
      FirstWordHelp(Stripped(text, matched));
      LowerKeepsHelp(Stripped(text, matched));
      assert false;
    }
  }

  /** When "help" follows the start of the cleaned text, the first word of the cleaned text is not "help". */
  lemma HelpNotFirstWord(text: string, matched: string)
    requires HelpAfterStart(text, matched)
    ensures HelpWordIndex(text, matched) != 0
  {
    var cleaned := Cleaned(text, matched);
    if FirstWord(cleaned) == HELP {
      FirstWordHelp(cleaned);
      assert false;
    }
  }

  /**
   * The guard against re-sending "help help" never fires: reaching it needs
   * "help" after the start of the cleaned text, while a first word "help"
   * puts it at the start.
   */
  lemma HelpHelpUnreachable(ctx: Context, alias: string, respondMatch: string -> Option<string>)
    ensures Decide(ctx, alias, respondMatch) != Stop
    ensures Done !in Calls(Decide(ctx, alias, respondMatch))
  {
    if HasText(ctx) && respondMatch(ctx.text.value).Some? {
      var text, matched := ctx.text.value, respondMatch(ctx.text.value).value;
      if HelpAfterStart(text, matched) {
        CommandIsNotHelp(text, matched);
      }
    }
  }

  /** With the guard dead, a re-send happens exactly when the two position checks pass. */
  lemma ResendExactlyWhen(ctx: Context, alias: string, respondMatch: string -> Option<string>)
    ensures Decide(ctx, alias, respondMatch).Resend? <==>
              && HasText(ctx) && respondMatch(ctx.text.value).Some?
              && HelpAfterStart(ctx.text.value, respondMatch(ctx.text.value).value)
              && HelpWordIndex(ctx.text.value, respondMatch(ctx.text.value).value) <= 2
  {
    HelpHelpUnreachable(ctx, alias, respondMatch);
  }

  /** Removing "hubot " from "hubot foo helpful" and trimming leaves "foo helpful". */
  lemma StrippedExample()
    ensures Stripped("hubot foo helpful", "hubot ") == "foo helpful"
  {
    var matched, rest := "hubot ", "foo helpful";
    assert matched + rest == "hubot foo helpful";
    assert (matched + rest)[|matched|..] == rest;
    AddressAtStartExample();
    StrippedAtStart(matched + rest, matched);
    TrimExample();
  }

  /** An address found at the very start is cut off the front, and the rest is trimmed. */
  lemma StrippedAtStart(text: string, matched: string)
    requires IndexOf(text, matched) == 0
    ensures Stripped(text, matched) == Trim(text[|matched|..])
  {
    assert text[..0] + text[|matched|..] == text[|matched|..];
  }

  /** The address "hubot " is found at the very start of "hubot foo helpful". */
  lemma AddressAtStartExample()
    ensures IndexOf("hubot foo helpful", "hubot ") == 0
  {
    assert OccursAt("hubot foo helpful", "hubot ", 0);
  }

  /** "foo helpful" has no white space around it. */
  lemma TrimExample()
    ensures Trim("foo helpful") == "foo helpful"
  {
    var s := "foo helpful";
    assert s[0] == 'f' && s[|s| - 1] == 'l';
    TrimKeepsTrimmed(s);
  }

  /** "foo helpful" splits on spaces into "foo" and "helpful". */
  lemma SplitExample()
    ensures Split("foo helpful", ' ') == ["foo", "helpful"]
  {
    assert "foo helpful" == "foo" + [' '] + "helpful";
    SplitFirst("foo", "helpful", ' ');
    SplitNone("helpful", ' ');
  }

  /**
   * "hubot foo helpful": "help" occurs only inside "helpful", so its word
   * index is -1, which passes the `<= 2` check, and "help foo" is re-sent.
   */
  lemma HelpfulIsRewritten(alias: string)
    ensures HelpWordIndex("hubot foo helpful", "hubot ") == -1
    ensures PossibleCommand("hubot foo helpful", "hubot ") == "foo"
    ensures Decide(Context(Some("hubot foo helpful"), None, "u"), alias, _ => Some("hubot "))
            == Resend(TextMessage("u", alias + FlippedHelpRequest("hubot foo helpful", "hubot "), None))
  {
    var text, matched := "hubot foo helpful", "hubot ";
    var ctx: Context, respondMatch: string -> Option<string> := Context(Some(text), None, "u"), _ => Some(matched);
    HelpWordIndexExample();
    CommandExample();
    assert HelpAfterStart(text, matched) by {
      CleanedExample();
      HelpPositionExample();
    }
    assert HasText(ctx) && respondMatch(text) == Some(matched);
    ResendExactlyWhen(ctx, alias, respondMatch);
  }

  /** No word of "foo helpful" is exactly "help". */
  lemma HelpWordIndexExample()
    ensures HelpWordIndex("hubot foo helpful", "hubot ") == -1
  {
    CleanedExample();
    SplitExample();
    assert HELP !in ["foo", "helpful"];
  }

  lemma CommandExample()
    ensures PossibleCommand("hubot foo helpful", "hubot ") == "foo"
  {
    assert FirstWord("foo helpful") == "foo" by {
      SplitExample();
    }
    StrippedExample();
  }

  lemma CleanedExample()
    ensures Cleaned("hubot foo helpful", "hubot ") == "foo helpful"
  {
    StrippedExample();
    LowerExample();
  }

  lemma LowerExample()
    ensures ToLower("foo helpful") == "foo helpful"
  {
    var s := "foo helpful";
    assert forall i :: 0 <= i < |s| ==> 'a' <= s[i] <= 'z' || s[i] == ' ';
    ToLowerNoUpper(s);
  }

  lemma HelpPositionExample()
    ensures IndexOf("foo helpful", HELP) == 4
  {
    var cleaned := "foo helpful";
    assert cleaned[4..8] == HELP;
    assert OccursAt(cleaned, HELP, 4);
    NotOccursAt(cleaned, HELP, 0);
    NotOccursAt(cleaned, HELP, 1);
    NotOccursAt(cleaned, HELP, 2);
    NotOccursAt(cleaned, HELP, 3);
  }

  /** The ordinary case: "hubot foo help" has "help" as its second word and is re-sent as `<alias>help foo`. */
  lemma FooHelpIsRewritten(alias: string)
    ensures HelpWordIndex("hubot foo help", "hubot ") == 1
    ensures Decide(Context(Some("hubot foo help"), None, "u"), alias, _ => Some("hubot "))
            == Resend(TextMessage("u", alias + "help foo", None))
  {
    var text, matched := "hubot foo help", "hubot ";
    var ctx: Context, respondMatch: string -> Option<string> := Context(Some(text), None, "u"), _ => Some(matched);
    FooHelpWordIndexExample();
    FooHelpFlippedExample();
    assert HelpAfterStart(text, matched) by {
      FooHelpCleanedExample();
      FooHelpPositionExample();
    }
    assert HasText(ctx) && respondMatch(text) == Some(matched);
    ResendExactlyWhen(ctx, alias, respondMatch);
  }

  lemma FooHelpStrippedExample()
    ensures Stripped("hubot foo help", "hubot ") == "foo help"
  {
    var matched, rest := "hubot ", "foo help";
    assert matched + rest == "hubot foo help";
    assert (matched + rest)[|matched|..] == rest;
    FooHelpAddressExample();
    StrippedAtStart(matched + rest, matched);
    FooHelpTrimExample();
  }

  lemma FooHelpAddressExample()
    ensures IndexOf("hubot foo help", "hubot ") == 0
  {
    assert OccursAt("hubot foo help", "hubot ", 0);
  }

  lemma FooHelpTrimExample()
    ensures Trim("foo help") == "foo help"
  {
    var s := "foo help";
    assert s[0] == 'f' && s[|s| - 1] == 'p';
    TrimKeepsTrimmed(s);
  }

  lemma FooHelpCleanedExample()
    ensures Cleaned("hubot foo help", "hubot ") == "foo help"
  {
    FooHelpStrippedExample();
    FooHelpLowerExample();
  }

  lemma FooHelpLowerExample()
    ensures ToLower("foo help") == "foo help"
  {
    var s := "foo help";
    assert forall i :: 0 <= i < |s| ==> 'a' <= s[i] <= 'z' || s[i] == ' ';
    ToLowerNoUpper(s);
  }

  lemma FooHelpSplitExample()
    ensures Split("foo help", ' ') == ["foo", "help"]
  {
    assert "foo help" == "foo" + [' '] + "help";
    SplitFirst("foo", "help", ' ');
    SplitNone("help", ' ');
  }

  lemma FooHelpPositionExample()
    ensures IndexOf("foo help", HELP) == 4
  {
    var cleaned := "foo help";
    assert cleaned[4..8] == HELP;
    assert OccursAt(cleaned, HELP, 4);
    NotOccursAt(cleaned, HELP, 0);
    NotOccursAt(cleaned, HELP, 1);
    NotOccursAt(cleaned, HELP, 2);
    NotOccursAt(cleaned, HELP, 3);
  }

  lemma FooHelpWordIndexExample()
    ensures HelpWordIndex("hubot foo help", "hubot ") == 1
  {
    FooHelpCleanedExample();
    FooHelpSplitExample();
    var words: seq<string> := ["foo", "help"];
    assert words[0] != HELP && words[1] == HELP;
    assert HELP !in words[..1];
  }

  lemma FooHelpCommandExample()
    ensures PossibleCommand("hubot foo help", "hubot ") == "foo"
  {
    assert FirstWord("foo help") == "foo" by {
      FooHelpSplitExample();
    }
    FooHelpStrippedExample();
  }

  lemma FooHelpFlippedExample()
    ensures FlippedHelpRequest("hubot foo help", "hubot ") == "help foo"
  {
    FooHelpCommandExample();
    HelpFooLiteral();
  }

  lemma HelpFooLiteral()
    ensures "help " + "foo" == "help foo"
  {
  }

  /**
   * The check as evidently intended: "help" must be the second or third
   * word; a "help" found only inside another word passes the message through.
   */
  function DecideIntended(ctx: Context, alias: string, respondMatch: string -> Option<string>): (o: Outcome)
    ensures o.Resend? ==>
              && HasText(ctx) && respondMatch(ctx.text.value).Some?
              && var text, matched := ctx.text.value, respondMatch(ctx.text.value).value;
              && HelpAfterStart(text, matched)
              && 0 <= HelpWordIndex(text, matched) <= 2
              && o.message == TextMessage(ctx.envelopeUser, alias + FlippedHelpRequest(text, matched), ctx.metadata)
  {
    if !HasText(ctx) then PassThrough
    else
      var text := ctx.text.value;
      match respondMatch(text)
      case None => PassThrough
      case Some(matched) =>
        if !HelpAfterStart(text, matched) then PassThrough
        else if 0 <= HelpWordIndex(text, matched) <= 2 then
          if FlippedHelpRequest(text, matched) == "help help" then Stop
          else Resend(TextMessage(ctx.envelopeUser, alias + FlippedHelpRequest(text, matched), ctx.metadata))
        else PassThrough
  }

  /**
   * Under the intended check (a re-send needs `0 <= index <= 2`) a re-send means that the word "help" is the
   * second or third word of the cleaned text, never a part of another word.
   */
  lemma IntendedNeedsHelpWord(text: string, matched: string)
    requires HelpAfterStart(text, matched) && 0 <= HelpWordIndex(text, matched) <= 2
    ensures var words := Split(Cleaned(text, matched), ' ');
            var i := HelpWordIndex(text, matched);
            1 <= i <= 2 && i < |words| && words[i] == HELP
  {
    HelpNotFirstWord(text, matched);
  }

  /** The intended check agrees with the written one except where no word is exactly "help". */
  lemma IntendedDiffersOnlyOnMissingWord(ctx: Context, alias: string, respondMatch: string -> Option<string>)
    requires HasText(ctx) && respondMatch(ctx.text.value).Some?
    requires HelpWordIndex(ctx.text.value, respondMatch(ctx.text.value).value) != -1
    ensures DecideIntended(ctx, alias, respondMatch) == Decide(ctx, alias, respondMatch)
  {
  }
}
