# grafanotate command interpreter in Dafny

grafanotate is a Slack bot that turns chat messages into annotations and
posts them to a dashboard endpoint. This project models the bot's only
decision-making code, in `src/main.rs`:

- `parse_command` cuts a message into tokens at every `". "` and classifies
  it as `Help`, `Annotate(..)` or `None`.
- `Annotate::new` builds the annotation record. `what` is the first token
  verbatim. `tags` is the second token cut at every `", "`. `when` is the
  epoch seconds of the third token, or the current time when that token is
  missing or does not parse.

The model has three modules:

- `Options` (`options.dfy`) is Rust's `Option` with `and_then` and `or_else`.
- `Splitting` (`split.dfy`) models Rust's `str::split` with a non-empty
  string pattern. The text is cut at the leftmost non-overlapping occurrences
  of the separator, and empty pieces are kept. `Join` is the partner that the
  round-trip lemmas use.
- `Commands` (`command.dfy`) holds the `Command` and `Annotate` datatypes
  (src/main.rs:95-108; `when` is an `I64`, the range of Rust's `i64`),
  `NewAnnotate` (`Annotate::new`) and `ParseCommand` (`parse_command`), and
  the lemmas about them.

Everything is pure: functions and lemmas, as in the source.

Two inputs come from outside, and both are parameters:

- `parseLocal: string -> Option<I64>` stands for chrono's
  `Local.datetime_from_str(s, "%F %R")`, then `with_timezone(&UTC)`, then
  `timestamp()`. It gives the epoch seconds of a local `YYYY-MM-DD HH:MM`
  text, or `None` when chrono reports an error.
- `now: I64` is the epoch seconds of `UTC::now()`.

The bot's help reply (src/main.rs:68-69) advertises the format
`"title. tag 1,tag 2, tag 3. time."`. The parser reads that text differently:

- It cuts messages on `". "` only. A period with no space after it stays in
  its token, so the time token is `"time."`.
- It cuts tags on `", "` only, so `"tag 1,tag 2"` stays one tag and the tags
  are `["tag 1,tag 2", "tag 3"]`.
- It trims nothing.
- `when` is in epoch seconds.

The model follows the code on all four points. `HelpTemplateParse` proves
how the advertised text parses. `TrailingPeriodIsKept` shows the same effect
on an ordinary message: in `"Team standup. work, daily."` the final period
stays in the tag `"daily."`.

## Model

| member | source | states |
|---|---|---|
| `Options.Option.AndThen` | src/main.rs:116-130 | `and_then` yields a value only from a held value, and on a held value its result is the closure's result |
| `Options.Option.OrElse` | src/main.rs:129 | `or_else` yields a value exactly when the option holds one or the closure returns one; a held value is kept, and otherwise the closure's value is used |
| `Splitting.FindFrom` | src/main.rs:139 | the search `split` performs: the result is an occurrence of the separator at or after the start index, and no occurrence lies between them; `None` means there is no occurrence from the start index on |
| `Splitting.Find` | src/main.rs:139 | `None` exactly when the text holds no separator; otherwise the leftmost occurrence |
| `Splitting.Split` | src/main.rs:139 | `split` always yields at least one piece; it yields exactly one piece, the whole text, exactly when the text holds no separator |
| `Splitting.JoinSplit` | src/main.rs:139 | joining the pieces of a split with the separator gives back the text: nothing is trimmed or dropped |
| `Splitting.SplitPiecesSeparatorFree` | src/main.rs:115 | no piece of a split holds the separator |
| `Splitting.SplitConcat` | src/main.rs:139 | for an unbordered separator, splitting `a + sep + b` gives the pieces of `a` followed by the pieces of `b` |
| `Splitting.SplitJoin` | src/main.rs:115 | for an unbordered separator, splitting a join of separator-free pieces gives those pieces back, so split and join are inverse |
| `Commands.SeparatorsUnbordered` | src/main.rs:115-139 | `". "` and `", "` are unbordered, so the split/join inverse holds for both separators the code uses |
| `Commands.Tokens` | src/main.rs:139 | the message yields at least one token, no token holds `". "`, and joining the tokens with `". "` gives back the message |
| `Commands.Get` | src/main.rs:141-153 | `tokens.get(i)` is `Some` exactly when `i` is below the token count, and then holds token `i` |
| `Commands.ResolveWhen` | src/main.rs:116-131 | the `and_then`/`or_else`/`and_then` chain always ends in `Some`, so `unwrap` cannot panic; its value is the parsed instant when the token is present and parses, else `now` |
| `Commands.NewAnnotate` | src/main.rs:111-134 | `what` is the title verbatim; `tags` is non-empty, joins back with `", "` to the tag text, and no tag holds `", "`; `when` is the parsed instant or `now` |
| `Commands.ParseCommand` | src/main.rs:138-159 | exactly one variant: `Help` iff the first token is `"help"`; `Annotate` iff there are two or more tokens and the first is not `"help"`; `None` iff there is one token and it is not `"help"`; a first token always exists, so the `None` arm of `tokens.get(0)` is unreachable |
| `Commands.HelpIsOneToken` | src/main.rs:148 | `"help"` holds no `". "` |
| `Commands.EmptyMessageIsNone` | src/main.rs:139-155 | the empty message is one empty token and yields `None` through the length check |
| `Commands.HelpTakesPriority` | src/main.rs:147-148 | `"help. "` followed by any text is `Help`, however many tokens follow |
| `Commands.NoneIff` | src/main.rs:141-156 | the result is `None` exactly when the message holds no `". "` and is not `"help"` |
| `Commands.HelpIsExact` | src/main.rs:148 | `"Help"`, `" help"`, `"help."`, `"help "` and `"HELP"` are `None`: the match is exact, case-sensitive and untrimmed |
| `Commands.AnnotateFields` | src/main.rs:150-153 | `Annotate` exactly when there are two or more tokens and the first is not `"help"`; then `what` is token 0, the tags join back to token 1, and `when` comes from token 2 when it is present and parses, else from `now` |
| `Commands.TagsAreTheUniqueSplit` | src/main.rs:115 | the tags are the only non-empty list of `", "`-free pieces that joins back to token 1 |
| `Commands.TailIrrelevant` | src/main.rs:151-153 | tokens after the third have no effect: adding `". "` and any text to a message of three or more tokens leaves the command unchanged |
| `Commands.ParseOfWrittenAnnotation` | src/main.rs:138-159 | a message written as title, tags and an optional time, none holding `". "` and the title not `"help"`, parses to `Annotate` of exactly those fields |
| `Commands.ClockOnlyAffectsWhen` | src/main.rs:124-129 | two parses of one message at different clock values agree on the variant, `what` and `tags`, and agree completely when token 2 is present and parses |
| `Commands.WrittenTwoFields` | src/main.rs:138-153 | a message written as a non-`"help"` title and a tag text, each free of `". "`, with two `", "`-free tags, has exactly those two tokens and parses to `Annotate` of the title, the two tags and `now` |
| `Commands.SplitThree` | src/main.rs:139 | three `". "`-free fields joined with `". "` split back into exactly those three tokens |
| `Commands.WrittenThreeFields` | src/main.rs:138-153 | the same with a third `". "`-free field: three tokens, and `when` is that field's parsed instant, or `now` when it does not parse |
| `Commands.TrailingPeriodIsKept` | src/main.rs:139 | `"Team standup. work, daily."` yields `Annotate("Team standup", ["work", "daily."], now)` |
| `Commands.ThirdFieldSetsTime` | src/main.rs:116-121 | `"Team standup. work, daily. 2024-03-05 09:00"` yields tags `["work", "daily"]`, and `when` is the parsed instant when chrono accepts the date, else `now` |
| `Commands.HelpTemplateParse` | src/main.rs:68-69 | the format the help reply advertises, `"title. tag 1,tag 2, tag 3. time."`, parses to `Annotate("title", ["tag 1,tag 2", "tag 3"], ..)` with `when` taken from the token `"time."`, period included |

## Left out

- The Slack event handler and the reply strings (src/main.rs:16-91) are left out. They are network transport and callback plumbing, and each reply is a fixed string per variant.
- `save` (src/main.rs:160-175) is left out. It is an HTTP POST of the record serialised with serde_json, and its result is only printed.
- `main` and `Config` (src/main.rs:178-207) are left out. They read a file and decode TOML configuration.
- Chrono's parsing of `"%F %R"` in the local timezone and its conversion to UTC (src/main.rs:118, 121) are left out. The local timezone database is not visible, so the model takes the parser as the parameter `parseLocal`.
- `UTC::now()` (src/main.rs:124, 129) is the parameter `now`. The source reads the clock at two different points, one per fallback. The model uses one value for both, because at most one of them runs in any call.
- The `println!` logging has no effect on the result and is left out.
- Strings are sequences of characters. Rust's UTF-8 byte layout is not modelled, because both separators are ASCII and a split on them cuts at the same places in either view.
- `Splitting.Split`: does not model `str::split` with an empty pattern, because the source only splits on the non-empty constants `". "` and `", "`.
