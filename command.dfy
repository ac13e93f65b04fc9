/** The chat-command interpreter of `src/main.rs`: `parse_command` cuts a chat
    message into ". "-separated tokens and classifies it as `Help`,
    `Annotate` or `None`; `Annotate::new` builds the annotation record from
    the first three tokens.

    Two inputs come from outside and are parameters here: `parseLocal` stands
    for chrono's `Local.datetime_from_str(s, "%F %R")` followed by
    `with_timezone(&UTC)` and `timestamp()` (the epoch seconds of a local
    "YYYY-MM-DD HH:MM" text, or `None` when it does not parse), and `now` for
    the epoch seconds of `UTC::now()`. */
module Commands {
  import Options
  import opened Splitting

  /** Rust's `i64`, the type of `Annotate::when`. */
  newtype I64 = x: int | -0x8000_0000_0000_0000 <= x < 0x8000_0000_0000_0000

  /** The separator between the fields of a message. */
  const TokenSeparator: string := ". "

  /** The separator between the tags of the second field. */
  const TagSeparator: string := ", "

  /** The annotation record: title, tags, and epoch seconds. */
  datatype Annotate = Annotate(what: string, tags: seq<string>, when: I64)

  /** The classification of one chat message. */
  datatype Command = Help | Annotate(annotate: Annotate) | None

  /** `message.split(". ").collect::<Vec<String>>()`: at least one token, no
      token holds ". ", and joining the tokens with ". " gives back the
      message, so nothing is trimmed or dropped. */
  function Tokens(message: string): (t: seq<string>)
    ensures |t| >= 1
    ensures forall k :: 0 <= k < |t| ==> !Contains(t[k], TokenSeparator)
    ensures Join(t, TokenSeparator) == message
  {
    JoinSplit(message, TokenSeparator);
    SplitPiecesSeparatorFree(message, TokenSeparator);
    Split(message, TokenSeparator)
  }

  /** `Vec::get`: the token at index `i`, or `None` past the end. */
  function Get(tokens: seq<string>, i: nat): (r: Options.Option<string>)
    ensures r.Some? <==> i < |tokens|
    ensures r.Some? ==> r.value == tokens[i]
  {
    if i < |tokens| then Options.Some(tokens[i]) else Options.None
  }

  /** The `when` chain of `Annotate::new`: a present token that parses gives
      its instant, a present token that does not parse gives `now`, an absent
      token gives `now` through `or_else`; `timestamp()` then reads the epoch
      seconds. The chain always ends in `Some`, so its `unwrap` cannot panic. */
  function ResolveWhen(when: Options.Option<string>, parseLocal: string -> Options.Option<I64>, now: I64)
    : (r: Options.Option<I64>)
    ensures r.Some?
    ensures when.Some? && parseLocal(when.value).Some? ==> r.value == parseLocal(when.value).value
    ensures when.None? || parseLocal(when.value).None? ==> r.value == now
  {
    when
      .AndThen((s: string) =>
        if parseLocal(s).Some? then Options.Some(parseLocal(s).value) else Options.Some(now))
      .OrElse(() => Options.Some(now))
      .AndThen((d: I64) => Options.Some(d))
  }

  /** `Annotate::new`: the title is kept verbatim, the tags are the pieces of
      the second field cut at ", " (joining them back gives the field, and no
      piece holds ", "), and the time is the parsed instant or `now`. */
  function NewAnnotate(what: string, tags: string, when: Options.Option<string>,
                       parseLocal: string -> Options.Option<I64>, now: I64): (a: Annotate)
    ensures a.what == what
    ensures |a.tags| >= 1 && Join(a.tags, TagSeparator) == tags
    ensures forall k :: 0 <= k < |a.tags| ==> !Contains(a.tags[k], TagSeparator)
    ensures when.Some? && parseLocal(when.value).Some? ==> a.when == parseLocal(when.value).value
    ensures when.None? || parseLocal(when.value).None? ==> a.when == now
  {
    JoinSplit(tags, TagSeparator);
    SplitPiecesSeparatorFree(tags, TagSeparator);
    Annotate.Annotate(what, Split(tags, TagSeparator), ResolveWhen(when, parseLocal, now).value)
  }

  /** `parse_command`: exactly one of the three variants, decided by the
      first token and the number of tokens; there is always a first token. */
  function ParseCommand(message: string, parseLocal: string -> Options.Option<I64>, now: I64): (c: Command)
    ensures c.Help? <==> Tokens(message)[0] == "help"
    ensures c.Annotate? <==> |Tokens(message)| >= 2 && Tokens(message)[0] != "help"
    ensures c.None? <==> |Tokens(message)| == 1 && Tokens(message)[0] != "help"
  {
    var tokens := Tokens(message);
    var first := Get(tokens, 0);
    if first.None? then Command.None
    else if first.value == "help" then Help
    else if |tokens| >= 2 then
      Command.Annotate(NewAnnotate(Get(tokens, 0).value, Get(tokens, 1).value, Get(tokens, 2), parseLocal, now))
    else Command.None
  }

  /** Both separators are unbordered, so splitting on them inverts joining. */
  lemma SeparatorsUnbordered()
    ensures Unbordered(TokenSeparator) && Unbordered(TagSeparator)
  {
    assert TokenSeparator[..1] != TokenSeparator[1..] by {
      assert TokenSeparator[..1][0] != TokenSeparator[1..][0];
    }
    assert TagSeparator[..1] != TagSeparator[1..] by {
      assert TagSeparator[..1][0] != TagSeparator[1..][0];
    }
  }

  /** "help" holds no ". ". */
  lemma HelpIsOneToken()
    ensures !Contains("help", TokenSeparator)
  {
    ContainsNeedsFirstTwoChars("help", TokenSeparator);
  }

  /** An empty message is one empty token, so it reaches `None` through the
      length check: the `None` arm of `tokens.get(0)` is never taken. */
  lemma EmptyMessageIsNone(parseLocal: string -> Options.Option<I64>, now: I64)
    ensures Tokens("") == [""]
    ensures ParseCommand("", parseLocal, now) == Command.None
  {
    ContainsNeedsFirstTwoChars("", TokenSeparator);
  }

  /** "help" followed by ". " and anything at all is `Help`: the help check
      comes before the annotate branch. */
  lemma HelpTakesPriority(rest: string, parseLocal: string -> Options.Option<I64>, now: I64)
    ensures ParseCommand("help" + TokenSeparator + rest, parseLocal, now) == Help
  {
    SeparatorsUnbordered();
    HelpIsOneToken();
    SplitAfterFree("help", TokenSeparator, rest);
  }

  /** The result is `None` exactly when the message holds no ". " and is not
      "help" itself. */
  lemma NoneIff(message: string, parseLocal: string -> Options.Option<I64>, now: I64)
    ensures ParseCommand(message, parseLocal, now) == Command.None
            <==> !Contains(message, TokenSeparator) && message != "help"
  {
  }

  /** Near misses of "help" are not help: the match is exact and
      case-sensitive, with no trimming. */
  lemma HelpIsExact(parseLocal: string -> Options.Option<I64>, now: I64)
    ensures ParseCommand("Help", parseLocal, now) == Command.None
    ensures ParseCommand(" help", parseLocal, now) == Command.None
    ensures ParseCommand("help.", parseLocal, now) == Command.None
    ensures ParseCommand("help ", parseLocal, now) == Command.None
    ensures ParseCommand("HELP", parseLocal, now) == Command.None
  {
    ContainsNeedsFirstTwoChars("Help", TokenSeparator);
    ContainsNeedsFirstTwoChars(" help", TokenSeparator);
    ContainsNeedsFirstTwoChars("help.", TokenSeparator);
    ContainsNeedsFirstTwoChars("help ", TokenSeparator);
    ContainsNeedsFirstTwoChars("HELP", TokenSeparator);
    NoneIff("Help", parseLocal, now);
    NoneIff(" help", parseLocal, now);
    NoneIff("help.", parseLocal, now);
    NoneIff("help ", parseLocal, now);
    NoneIff("HELP", parseLocal, now);
  }

  /** The result is `Annotate` exactly when there are two or more tokens and
      the first is not "help"; then `what` is the first token verbatim, the
      tags joined with ", " give back the second token, and `when` is the
      instant of the third token when it is present and parses, else `now`. */
  lemma AnnotateFields(message: string, parseLocal: string -> Options.Option<I64>, now: I64)
    ensures var c := ParseCommand(message, parseLocal, now);
            var t := Tokens(message);
            c.Annotate? <==> |t| >= 2 && t[0] != "help"
    ensures var c := ParseCommand(message, parseLocal, now);
            var t := Tokens(message);
            c.Annotate? ==>
              && c.annotate.what == t[0]
              && |c.annotate.tags| >= 1
              && Join(c.annotate.tags, TagSeparator) == t[1]
              && (forall k :: 0 <= k < |c.annotate.tags| ==> !Contains(c.annotate.tags[k], TagSeparator))
              && (|t| >= 3 && parseLocal(t[2]).Some? ==> c.annotate.when == parseLocal(t[2]).value)
              && (|t| < 3 || parseLocal(t[2]).None? ==> c.annotate.when == now)
  {
  }

  /** The tags are the only list of ", "-free pieces that joins back to the
      second token. */
  lemma TagsAreTheUniqueSplit(message: string, parseLocal: string -> Options.Option<I64>, now: I64,
                              pieces: seq<string>)
    requires ParseCommand(message, parseLocal, now).Annotate?
    requires |pieces| >= 1 && Join(pieces, TagSeparator) == Tokens(message)[1]
    requires forall k :: 0 <= k < |pieces| ==> !Contains(pieces[k], TagSeparator)
    ensures ParseCommand(message, parseLocal, now).annotate.tags == pieces
  {
    SeparatorsUnbordered();
    SplitJoin(pieces, TagSeparator);
  }

  /** Tokens after the third have no effect: extending a message of three or
      more tokens by ". " and any text leaves the command unchanged. */
  lemma TailIrrelevant(message: string, extra: string, parseLocal: string -> Options.Option<I64>, now: I64)
    requires |Tokens(message)| >= 3
    ensures ParseCommand(message + TokenSeparator + extra, parseLocal, now)
            == ParseCommand(message, parseLocal, now)
  {
    SeparatorsUnbordered();
    SplitConcat(message, TokenSeparator, extra);
  }

  /** A message written as title, tags and optional time, none holding ". "
      and the title not "help", parses back to exactly that annotation. */
  lemma ParseOfWrittenAnnotation(what: string, tags: string, when: Options.Option<string>,
                                 parseLocal: string -> Options.Option<I64>, now: I64)
    requires what != "help"
    requires !Contains(what, TokenSeparator) && !Contains(tags, TokenSeparator)
    requires when.Some? ==> !Contains(when.value, TokenSeparator)
    ensures var fields := [what, tags] + (if when.Some? then [when.value] else []);
            ParseCommand(Join(fields, TokenSeparator), parseLocal, now)
            == Command.Annotate(NewAnnotate(what, tags, when, parseLocal, now))
  {
    var fields := [what, tags] + (if when.Some? then [when.value] else []);
    SeparatorsUnbordered();
    SplitJoin(fields, TokenSeparator);
  }

  /** Only `when` depends on the clock: two parses of one message at two
      instants agree on the variant, the title and the tags, and on the time
      too when the third token is present and parses. */
  lemma ClockOnlyAffectsWhen(message: string, parseLocal: string -> Options.Option<I64>, now1: I64, now2: I64)
    ensures var c1 := ParseCommand(message, parseLocal, now1);
            var c2 := ParseCommand(message, parseLocal, now2);
            && c1.Help? == c2.Help? && c1.None? == c2.None? && c1.Annotate? == c2.Annotate?
            && (c1.Annotate? ==> c1.annotate.what == c2.annotate.what && c1.annotate.tags == c2.annotate.tags)
    ensures var t := Tokens(message);
            |t| >= 3 && parseLocal(t[2]).Some? ==>
              ParseCommand(message, parseLocal, now1) == ParseCommand(message, parseLocal, now2)
  {
  }

  /** A message written as two ". "-free fields, the second made of two
      ", "-free tags, is read back as exactly those tokens and tags. */
  lemma WrittenTwoFields(message: string, what: string, tags: string, tag1: string, tag2: string,
                         parseLocal: string -> Options.Option<I64>, now: I64)
    requires message == what + TokenSeparator + tags && tags == tag1 + TagSeparator + tag2
    requires what != "help"
    requires !Contains(what, TokenSeparator) && !Contains(tags, TokenSeparator)
    requires !Contains(tag1, TagSeparator) && !Contains(tag2, TagSeparator)
    ensures Tokens(message) == [what, tags]
    ensures ParseCommand(message, parseLocal, now)
            == Command.Annotate(Annotate.Annotate(what, [tag1, tag2], now))
  {
    SeparatorsUnbordered();
    SplitTwo(what, TokenSeparator, tags);
    SplitTwo(tag1, TagSeparator, tag2);
  }

  /** A message written as three ". "-free fields, the second made of two
      ", "-free tags, is read back as exactly those tokens and tags. */
  lemma WrittenThreeFields(message: string, what: string, tags: string, time: string, tag1: string, tag2: string,
                           parseLocal: string -> Options.Option<I64>, now: I64)
    requires message == what + TokenSeparator + tags + TokenSeparator + time
    requires tags == tag1 + TagSeparator + tag2
    requires what != "help"
    requires !Contains(what, TokenSeparator) && !Contains(tags, TokenSeparator)
    requires !Contains(time, TokenSeparator)
    requires !Contains(tag1, TagSeparator) && !Contains(tag2, TagSeparator)
    ensures Tokens(message) == [what, tags, time]
    ensures ParseCommand(message, parseLocal, now)
            == Command.Annotate(Annotate.Annotate(what, [tag1, tag2],
                 if parseLocal(time).Some? then parseLocal(time).value else now))
  {
    SeparatorsUnbordered();
    SplitThree(message, what, tags + TokenSeparator + time, tags, time);
    SplitTwo(tag1, TagSeparator, tag2);
  }

  /** The token step of `WrittenThreeFields`, with the regrouped tail named. */
  lemma SplitThree(message: string, what: string, rest: string, tags: string, time: string)
    requires Unbordered(TokenSeparator)
    requires message == what + TokenSeparator + tags + TokenSeparator + time
    requires rest == tags + TokenSeparator + time
    requires !Contains(what, TokenSeparator) && !Contains(tags, TokenSeparator)
    requires !Contains(time, TokenSeparator)
    ensures Split(message, TokenSeparator) == [what, tags, time]
  {
    SplitTwo(tags, TokenSeparator, time);
    assert message == what + TokenSeparator + rest;
    SplitAfterFree(what, TokenSeparator, rest);
  }

  /** A message ending in "." without a space after it keeps the period in the
      last field: "Team standup. work, daily." gives the tags "work" and
      "daily.", and the time falls back to `now`. */
  lemma TrailingPeriodIsKept(parseLocal: string -> Options.Option<I64>, now: I64)
    ensures ParseCommand("Team standup" + ". " + "work, daily.", parseLocal, now)
            == Command.Annotate(Annotate.Annotate("Team standup", ["work", "daily."], now))
  {
    ContainsNeedsFirstTwoChars("Team standup", TokenSeparator);
    ContainsNeedsFirstTwoChars("work, daily.", TokenSeparator);
    ContainsNeedsFirstTwoChars("work", TagSeparator);
    ContainsNeedsFirstTwoChars("daily.", TagSeparator);
    WrittenTwoFields("Team standup" + ". " + "work, daily.", "Team standup", "work, daily.", "work", "daily.",
                     parseLocal, now);
  }

  /** A third field sets the time when it parses: "Team standup. work, daily.
      2024-03-05 09:00" gives the tags "work" and "daily" and the parsed
      instant, or `now` when the local-time parser refuses the text. */
  lemma ThirdFieldSetsTime(parseLocal: string -> Options.Option<I64>, now: I64)
    ensures var date := "2024-03-05 09:00";
            ParseCommand("Team standup" + ". " + "work, daily" + ". " + date, parseLocal, now)
            == Command.Annotate(Annotate.Annotate("Team standup", ["work", "daily"],
                 if parseLocal(date).Some? then parseLocal(date).value else now))
  {
    ContainsNeedsFirstTwoChars("Team standup", TokenSeparator);
    ContainsNeedsFirstTwoChars("work, daily", TokenSeparator);
    ContainsNeedsFirstTwoChars("2024-03-05 09:00", TokenSeparator);
    ContainsNeedsFirstTwoChars("work", TagSeparator);
    ContainsNeedsFirstTwoChars("daily", TagSeparator);
    WrittenThreeFields("Team standup" + ". " + "work, daily" + ". " + "2024-03-05 09:00",
                       "Team standup", "work, daily", "2024-03-05 09:00", "work", "daily",
                       parseLocal, now);
  }

  /** The input format that the bot's help reply advertises,
      "title. tag 1,tag 2, tag 3. time.", does not parse as it describes:
      "tag 1,tag 2" stays one tag because tags are cut only at ", ", and the
      time token keeps its final period. */
  lemma HelpTemplateParse(parseLocal: string -> Options.Option<I64>, now: I64)
    ensures ParseCommand("title" + ". " + "tag 1,tag 2, tag 3" + ". " + "time.", parseLocal, now)
            == Command.Annotate(Annotate.Annotate("title", ["tag 1,tag 2", "tag 3"],
                 if parseLocal("time.").Some? then parseLocal("time.").value else now))
  {
    ContainsNeedsFirstTwoChars("title", TokenSeparator);
    ContainsNeedsFirstTwoChars("tag 1,tag 2, tag 3", TokenSeparator);
    ContainsNeedsFirstTwoChars("time.", TokenSeparator);
    ContainsNeedsFirstTwoChars("tag 1,tag 2", TagSeparator);
    ContainsNeedsFirstTwoChars("tag 3", TagSeparator);
    WrittenThreeFields("title" + ". " + "tag 1,tag 2, tag 3" + ". " + "time.",
                       "title", "tag 1,tag 2, tag 3", "time.", "tag 1,tag 2", "tag 3",
                       parseLocal, now);
  }
}
