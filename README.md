# Trigger commands of the companion bot, modelled in Dafny

The bot lets users in one setup channel define named trigger commands, each with a
message template and a list of GIF URLs. Any other message that mentions a user and
contains a command's name (case-insensitively, as a substring) makes the bot post that
command's template. In the post, `{@user}` becomes the mentioned user's name and
`{@me}` becomes the author's name, and one of the command's GIFs is attached. The
command table is kept in memory and written to a JSON file after every change.

This project models that engine, which lives in the `messageCreate` handler of
`index.js` and in `loadCommands`/`saveCommands`, and proves properties of the model.
It has seven modules:

- `Wrappers` (`wrappers.dfy`): `Option`.
- `Text` (`text.dfy`): the string operations the handler relies on. These are ASCII
  `toLowerCase`, `trim`, `split(/ +/)`, `join`, `includes`, and a global literal
  `replace`. Each comes with its characterising lemmas: split after join is the
  identity, `split(p).join(p)` gives the string back, replace is `split(p).join(r)`,
  and the leftmost occurrence is found.
- `Commands` (`commands.dfy`): the table `customCommands`, as an insertion-ordered
  sequence of `(name, Command)` pairs with unique keys. Key assignment keeps an
  existing key's position and appends a new one. `delete` removes exactly one entry.
- `Store` (`store.dfy`): `commands.json` as a `CommandStore` object. `Load` gives the
  stored table, or the empty table when the file is absent or unreadable. `Save`
  writes the whole table, or fails and leaves the file as it was.
- `Protocol` (`protocol.dfy`): the `/command` protocol.
  - How the text after the prefix becomes a `Request`.
  - The exact reply texts.
  - `Execute`, which gives the effect of a request on the table: refused with a
    reply, or committed with the replies for a successful and a failed save.
- `Trigger` (`trigger.dfy`): the trigger scan (first match wins), template rendering,
  the GIF choice, and the response to a message that is not a setup command.
- `Bot` (`bot.dfy`): the class `Bot`, holding the mutable table and the store.
  - Its methods `Add`, `Edit` and `Delete` change the table in place and save.
  - `FindTrigger` is the `for … of` loop with its early `break`.
  - `Handle` processes one message.
  - Each method is proved against the pure specification (`Execute`, `FirstTrigger`,
    `Dispatch`), and the properties are proved about that specification.

How the environment is modelled:
- Whether a write succeeds is a parameter (`saveOk`).
- `Math.random()` is a parameter: an exact fraction `num/den` in [0, 1), so the GIF
  index is `floor(num * n / den)`.
- Display names are optional strings. An empty one falls back to the username, as
  `||` does.

Behaviour of the code worth knowing:
- GIF lists loaded from the file are not checked. So "one to five GIFs" is an
  invariant that the mutations preserve (`ExecutePreservesInvariant`, `DispatchSpec`),
  not a property of every table.
- A failed save keeps the in-memory change, so memory and file may disagree.
- `trim` removes tabs and line breaks as well as spaces, while `split(/ +/)` splits only
  on spaces, so a tab between two words keeps them in one argument.

## Model

| member | source | states |
|---|---|---|
| Store.CommandStore.Load | index.js:19-29 | the table in the file, or the empty table when the file is absent or unreadable; keys are unique |
| Store.CommandStore.Save | index.js:31-39 | returns the write's outcome; a successful write stores exactly the given table, a failed one leaves the file unchanged |
| Store.SaveThenLoad | index.js:19-39 | a successful save followed by a load gives back the same table, entries and order included |
| Bot.Bot.constructor | index.js:41 | the in-memory table at start-up is what `loadCommands` returns |
| Text.ToLower | index.js:111 | the result has the input's length and no upper-case ASCII letter |
| Text.ToLowerIsLower | index.js:111 | lower-casing keeps the length, maps each upper-case letter to the same letter in lower case, keeps every other character and is idempotent |
| Text.Trim | index.js:110 | the result is a contiguous slice of the input, all that is cut off on either side is whitespace, and it starts and ends with non-whitespace |
| Text.TrimPadded | index.js:110 | trimming whitespace padding around text that starts and ends with non-whitespace gives that text |
| Text.SplitSpaces | index.js:110 | at least one piece, and no piece contains a space |
| Text.SplitJoinGaps | index.js:110 | splitting tokens joined by runs of spaces of any width gives back exactly the tokens |
| Text.JoinWith | index.js:116 | the result begins with the first piece, followed by the separator when there are more pieces; `SplitJoinSpaces` shows that `split(/ +/)` undoes it |
| Text.SplitJoinSpaces | index.js:116 | `split(/ +/)` after `join(' ')` is the identity on non-empty space-free tokens |
| Text.ReplaceAll | index.js:194-195 | a string in which the pattern does not occur is returned unchanged; `ReplaceAllIsSplitJoin`, `ReplaceAllAtStart` and `ReplaceAllAfterFree` characterise the other cases |
| Text.IndexOf | index.js:186 | the result is an occurrence and no earlier index is one; none means no occurrence anywhere |
| Text.Contains | index.js:186 | the empty pattern is contained in every text, and a contained pattern is no longer than the text; `ContainsIff` characterises it |
| Text.ContainsIff | index.js:186 | `includes` holds exactly when the pattern occurs at some index |
| Text.SplitOnPiecesFree | index.js:193-195 | no piece of `split(p)` contains `p` |
| Text.JoinSplitOn | index.js:193-195 | `split(p).join(p)` gives the string back |
| Text.ReplaceAllIsSplitJoin | index.js:193-195 | global replacement equals `split(p).join(r)`: every occurrence from a left-to-right scan is replaced and the text between them is kept |
| Text.ReplaceAllSelf | index.js:193-195 | replacing a pattern by itself changes nothing |
| Text.ReplaceAllAfterFree | index.js:193-195 | text without the pattern's first character is passed over unchanged, and replacement continues after it |
| Text.ReplaceAllAtStart | index.js:193-195 | an occurrence at the start is replaced, and the scan resumes after it |
| Text.NatToStringValue | index.js:152 | the decimal rendering of the GIF count reads back as the count |
| Commands.Find | index.js:141 | the position of the entry with that key if there is one, with no earlier entry with that key; none exactly when the key is absent |
| Commands.Lookup | index.js:141 | a command is found exactly when the key is one of the table's own keys, and then it is the command stored under that key |
| Commands.Put | index.js:122-125 | the entry is in the new table, and the table grows by one exactly when the key was new; `LookupPut` and `PutNames` characterise the rest |
| Commands.Remove | index.js:168 | the table shrinks by one exactly when the key was present and gains no entry; `RemoveIsWithout` and `LookupRemove` characterise the rest |
| Commands.LookupPut | index.js:122-125 | after assigning a key, that key holds the new command and every other key holds what it held |
| Commands.PutNames | index.js:122-125 | assigning an existing key keeps the order of the keys; a new key is appended at the end |
| Commands.PutUnique | index.js:122-125 | assignment keeps the keys unique |
| Commands.RemoveIsWithout | index.js:168 | `delete` of a key gives every other entry, in order |
| Commands.WithoutNames | index.js:168 | after the deletion, the keys are unique, the key set loses exactly that key, and the size drops by one when the key was present |
| Commands.LookupRemove | index.js:168 | after `delete`, the key is absent and every other key holds what it held |
| Protocol.IsSetupCommand | index.js:105 | a setup command is the prefix followed by the rest of its content; `DispatchSpec` states that only these get a reply |
| Protocol.Args | index.js:110 | there is at least one argument and none contains a space; `ArgsOfWords` gives the arguments of space-separated words exactly |
| Protocol.Parse | index.js:110-158 | the command name of every request is lower-cased; `ParseAdd`, `ParseEdit`, `ParseDelete`, `ParseShort`, `ParseUnknown` and `ParseBlank` give the request for each shape of input |
| Protocol.ArgsOfWords | index.js:110 | words separated by runs of spaces and padded with whitespace after the prefix are recovered exactly as the argument list |
| Protocol.ParseAdd | index.js:113-116 | `add`: the name is lower-cased, the URL taken verbatim, and the message words rejoined with single spaces |
| Protocol.ParseEdit | index.js:133-135 | `edit`: the name is lower-cased, the URL taken verbatim, and further words ignored |
| Protocol.ParseDelete | index.js:157-158 | `delete`: the lower-cased name, with any further words ignored |
| Protocol.ParseBlank | index.js:110-111 | a prefix followed by whitespace only names no action, so it gets the generic usage reply |
| Protocol.ParseShort | index.js:113-161 | `add` or `edit` with fewer than three words, or `delete` alone, parses to a request whose missing fields are empty, and is refused with that action's usage reply on every table |
| Protocol.ParseUnknown | index.js:111-177 | an action word other than `add`, `edit` and `delete`, in any case, parses to no action and is refused with the generic usage reply on every table |
| Protocol.ReplyText | index.js:107-177 | the reply texts as the handler sends them; `ReplyMarks` states which start with a check mark and which with a cross |
| Protocol.ReplyMarks | index.js:107-177 | success replies start with a check mark, every other reply with a cross |
| Protocol.Execute | index.js:113-177 | a refusal never carries a success reply; a commit comes from a real action and carries a success reply for a saved change and a failure reply for an unsaved one |
| Protocol.ExecuteAdd | index.js:113-131 | `add` is refused with the usage reply exactly when an argument is empty. Otherwise the name holds `{message, [url]}`, including when it silently overwrites an existing entry. Every other entry and the key order are unchanged, and the reply is "created" or "failed to save" |
| Protocol.ExecuteEdit | index.js:133-156 | `edit` is refused for a missing argument, an unknown name or a full list, each with its own reply. Otherwise the URL is appended to that entry's list, so the list grows by exactly one, nothing else changes, and the reply reports the new length, which is at most five |
| Protocol.ExecuteDelete | index.js:157-175 | `delete` is refused for a missing or unknown name. Otherwise exactly that entry is removed, the others stay in order, and the reply is "deleted" or "failed to delete" |
| Protocol.ExecutePreservesInvariant | index.js:122-149 | every committed table keeps unique keys, and from a table whose GIF lists hold one to five URLs, keeps that bound |
| Protocol.DeleteAsWritten | index.js:164-168 | the delete branch with the object's inherited properties visible to the existence test; it agrees with `Execute` on every other name |
| Protocol.DeleteConstructorAsWritten | index.js:164-171 | on an empty table, `delete constructor` as written commits and replies "deleted"; the own-key version replies "does not exist" |
| Protocol.AddAsWritten | index.js:122-125 | the add branch with `__proto__` assignment replacing the prototype when the table has no own `__proto__` key; it agrees with `Execute` on every other name, and on `__proto__` when the loaded file gave the table that key |
| Protocol.AddProtoAsWritten | index.js:122-128 | on a table without an own `__proto__` key, `add __proto__` as written replies "created" and leaves the table unchanged; the own-key version creates the entry |
| Trigger.RenderIsGlobal | index.js:193-195 | `{@user}` is replaced at every occurrence, then `{@me}` at every occurrence, keeping all text between them |
| Trigger.Render | index.js:193-195 | a template without placeholders is posted as it is; `RenderIsGlobal` states the general case |
| Trigger.RenderRepeated | index.js:193-195 | in `{@me} hugs {@user} again, {@user}!`, both `{@user}` are replaced by the mentioned name and `{@me}` by the author's |
| Trigger.RenderHugsAgain | index.js:193-195 | `{@me} hugs {@user} again, {@user}!` from Al to Bo reads `Al hugs Bo again, Bo!` |
| Trigger.RenderMeThenUser | index.js:193-195 | `{@me}<text>{@user}` renders as author, text, mentioned name |
| Trigger.RenderOrder | index.js:193-195 | because `{@user}` is replaced first, a mentioned name that reads `{@me}` is then replaced by the author's name |
| Trigger.GifIndex | index.js:191 | `floor(random * n)` is below `n` for a non-empty list |
| Trigger.PickGif | index.js:191 | the chosen GIF is an element of a non-empty list; an empty list gives none (`undefined`) |
| Trigger.EveryGifCanBePicked | index.js:191 | every GIF in the list is chosen for some value of `Math.random()` |
| Trigger.FirstTrigger | index.js:185-186 | the entry it returns fires, and none means that no entry fires; `FirstTriggerIff` adds that no earlier entry fires |
| Trigger.FirstTriggerFrom | index.js:185-186 | the first entry at or after a position whose lower-cased name occurs in the text; none means no later entry matches |
| Trigger.FirstTriggerIff | index.js:185-186 | an entry fires exactly when it matches and no earlier entry does; none fires exactly when no entry matches |
| Trigger.ShownName | index.js:188-195 | a non-empty display name is shown; an absent or empty one falls back to the username, so the name shown is empty only when the username is |
| Trigger.Respond | index.js:182-204 | a post is made only for a message that mentions someone and in which some command fires; `RespondSpec` states what is posted |
| Trigger.RespondSpec | index.js:182-204 | something is posted exactly when the message mentions someone and some name occurs in its lower-cased text. The post renders the first matching command's template with the first mentioned user and the author, and carries one of that command's GIFs |
| Trigger.HugFiresOnHugging | index.js:183-186 | matching is case-insensitive and by substring: `hug` fires on `HUGGING you` |
| Trigger.FirstOfTwoWins | index.js:185-204 | when two names occur in the text, only the earlier entry fires |
| Trigger.PokeScenario | index.js:182-204 | Al's `hey @Bo poke` with the `poke` command posts `Al pokes Bo` with its only GIF |
| Bot.Dispatch | index.js:102-207 | only a user's setup command in the setup channel writes the file, and a success reply is only given after a successful write |
| Bot.DispatchSpec | index.js:102-207 | bots are ignored. A setup command from another channel gets exactly the denial reply and changes nothing. Only a user's setup command in the setup channel changes the table or writes the file. Tables keep unique keys and bounded GIF lists. Setup commands always get a reply and other messages never do, a post needs a mention, and a success reply comes only after a successful write |
| Protocol.ExecuteKeepsKeys | index.js:122-168 | every committed table keeps the keys unique, whatever its GIF lists hold |
| Bot.OtherMessagesOnlyPost | index.js:182-207 | a message that is not a setup command changes neither the table nor the file, and posts exactly what the trigger scan yields |
| Bot.Bot.Add | index.js:113-131 | the in-place assignment and save have exactly the effect `Execute` gives for `add`, with the reply chosen by the save's outcome |
| Bot.Bot.Edit | index.js:133-156 | the in-place `push` and save have exactly the effect `Execute` gives for `edit` |
| Bot.Bot.Delete | index.js:157-175 | the in-place `delete` and save have exactly the effect `Execute` gives for `delete` |
| Bot.Bot.FindTrigger | index.js:185-205 | the loop returns the first entry whose lower-cased name occurs in the text, and stops there |
| Bot.Bot.Setup | index.js:113-177 | the dispatch on the action word has exactly the effect `Execute` gives for the parsed request, with the reply chosen by the save's outcome |
| Bot.Bot.TriggerPost | index.js:182-204 | the mention check and trigger scan post exactly what `Respond` gives |
| Bot.Bot.Handle | index.js:102-208 | one message: the new table, the file and the response are those of `Dispatch` |

## Left out

- Discord client setup, event wiring, login, the welcome image and the Express status page: network I/O, canvas drawing and foreign libraries, outside the engine.
- `message.reply`, `channel.send` and `EmbedBuilder`: the model returns the reply or the post as a value instead of sending it.
- JSON encoding and decoding of `commands.json`: the file is modelled as the table it holds, or as absent or unreadable.
- Partial writes: a failed `writeFileSync` is modelled as leaving the previous file content.
- `Math.random()` as a floating-point number: it is taken as an exact fraction in [0, 1), so rounding of the float product is not modelled.
- `toLowerCase` and `trim` beyond ASCII: only ASCII letters are lower-cased and only ASCII whitespace is trimmed; Unicode case mappings and Unicode spaces are not modelled.
- `$` patterns in replacement strings: `replace` is modelled with a literal replacement, so a display name containing `$&` or `$1` would be inserted differently by JavaScript.
- Integer-like keys: `Object.entries` lists keys such as `"12"` first in ascending order; the model scans in plain insertion order.
- Inherited `Object.prototype` properties appear only in the two findings below. The model does not cover `edit constructor` or `edit __proto__`. On a table whose prototype no earlier `add __proto__` has replaced, each reads `.gifs.length` of a non-command and throws, so nothing is replied.
- Protocol.AddAsWritten, Protocol.DeleteAsWritten: each models one message and does not carry a replaced prototype into later messages. After an as-written `add __proto__ <url> <message>` the table's prototype is that command object, so a later `edit __proto__` appends to it and replies that the GIF was added, and `message` and `gifs` become inherited names that `delete` reports as deleted; the fixed set of inherited names in `DeleteAsWritten` does not cover that.
- Aliasing of the GIF array: `push` mutates the array shared with the table entry. The model replaces the entry by a new value with the longer list, which is the same observable state.
- `message.guild` being null in direct messages, where the member-cache lookups throw: the handler is modelled for guild messages only.
- The guild member cache: display names are given as optional strings on the users.
- Asynchrony: each message is handled to completion before the next, as in the single event loop.

## Findings

| source | as written | input that shows it | evidently intended | confidence | as-written member | corrected member |
|---|---|---|---|---|---|---|
| index.js:164-171 | `!customCommands[commandName]` reads inherited properties of a plain object, so `constructor` and `__proto__` count as existing commands | `/command delete constructor` on a table without that command replies "has been deleted" and rewrites the file | only commands that were added count as existing, so the reply is "does not exist" | not executed | Protocol.DeleteConstructorAsWritten | Protocol.ExecuteDelete |
| index.js:122-128 | on a table without an own `__proto__` key (the usual case; a `"__proto__"` key in the file does create one), `customCommands["__proto__"] = {...}` replaces the object's prototype instead of adding an entry | `/command add __proto__ http://x/1.gif hi` replies "has been created", but the command is neither saved nor ever fires | the command is created like any other | not executed | Protocol.AddProtoAsWritten | Protocol.ExecuteAdd |
