/**
 * The `/command` mutation protocol of the `messageCreate` handler: how the
 * text after the prefix is tokenized into a request, the replies, and the
 * effect each request has on the command table.
 */
module Protocol {
  import opened Wrappers
  import opened Text
  import opened Commands

  /** Messages starting with this (case-sensitive, trailing space included) are setup commands. */
  const Prefix := "/command "

  /** The only channel in which setup commands are carried out. */
  const SetupChannelId := "1427688994967388341"

  predicate IsSetupCommand(content: string): (b: bool)
    ensures b ==> |Prefix| <= |content| && content == Prefix + content[|Prefix|..]
  {
    |Prefix| <= |content| && content[..|Prefix|] == Prefix
  }

  /** `message.content.slice(9).trim().split(/ +/)`. */
  function Args(content: string): (args: seq<string>)
    requires IsSetupCommand(content)
    ensures |args| >= 1 && forall k :: 0 <= k < |args| ==> ' ' !in args[k]
  {
    SplitSpaces(Trim(content[|Prefix|..]))
  }

  /** `args[i]`, with `undefined` read as the empty string (both are falsy). */
  function Arg(args: seq<string>, i: nat): string {
    if i < |args| then args[i] else ""
  }

  /** A parsed setup command; an empty field is a missing or empty argument. */
  datatype Request =
    | AddRequest(name: string, url: string, message: string)
    | EditRequest(name: string, url: string)
    | DeleteRequest(name: string)
    | UnknownAction

  /**
   * The action word and the command name are lower-cased; the GIF URL is
   * taken verbatim; the message of `add` is the remaining words joined by
   * single spaces.
   */
  function Parse(content: string): (r: Request)
    requires IsSetupCommand(content)
    ensures !r.UnknownAction? ==> forall i :: 0 <= i < |r.name| ==> !IsUpper(r.name[i])
  {
    var args := Args(content);
    var action := ToLower(Arg(args, 0));
    if action == "add" then
      AddRequest(ToLower(Arg(args, 1)), Arg(args, 2), JoinWith(if |args| > 3 then args[3..] else [], " "))
    else if action == "edit" then
      EditRequest(ToLower(Arg(args, 1)), Arg(args, 2))
    else if action == "delete" then
      DeleteRequest(ToLower(Arg(args, 1)))
    else
      UnknownAction
  }

  /** A word of a setup command: non-empty and free of whitespace. */
  predicate IsWord(w: string) {
    w != [] && forall i :: 0 <= i < |w| ==> !IsWhitespace(w[i])
  }

  predicate IsGap(g: string) {
    g != [] && AllSpaces(g)
  }

  /** Words separated by arbitrary runs of spaces and padded with whitespace are recovered exactly. */
  lemma ArgsOfWords(lead: string, words: seq<string>, gaps: seq<string>, trail: string)
    requires AllWhitespace(lead) && AllWhitespace(trail)
    requires |words| >= 1 && |gaps| == |words| - 1
    requires forall k :: 0 <= k < |words| ==> IsWord(words[k])
    requires forall k :: 0 <= k < |gaps| ==> IsGap(gaps[k])
    ensures IsSetupCommand(Prefix + lead + JoinGaps(words, gaps) + trail)
    ensures Args(Prefix + lead + JoinGaps(words, gaps) + trail) == words
  {
    var body := JoinGaps(words, gaps);
    var rest := lead + body + trail;
    AfterPrefix(rest);
    assert Prefix + lead + body + trail == Prefix + rest;
    JoinGapsEnds(words, gaps);
    TrimPadded(lead, body, trail);
    WordsAreTokens(words);
    SplitJoinGaps(words, gaps);
  }

  lemma AfterPrefix(rest: string)
    ensures IsSetupCommand(Prefix + rest) && (Prefix + rest)[|Prefix|..] == rest
  {
    assert (Prefix + rest)[..|Prefix|] == Prefix;
  }

  lemma WordsAreTokens(words: seq<string>)
    requires forall k :: 0 <= k < |words| ==> IsWord(words[k])
    ensures forall k :: 0 <= k < |words| ==> IsToken(words[k])
  {
    forall k | 0 <= k < |words| ensures IsToken(words[k]) {
      assert forall i :: 0 <= i < |words[k]| ==> words[k][i] != ' ';
    }
  }

  lemma WordsAfterThree(a: string, b: string, c: string, rest: seq<string>)
    requires IsWord(a) && IsWord(b) && IsWord(c)
    requires forall k :: 0 <= k < |rest| ==> IsWord(rest[k])
    ensures forall k :: 0 <= k < |[a, b, c] + rest| ==> IsWord(([a, b, c] + rest)[k])
  {
  }

  lemma {:induction false} JoinGapsEnds(words: seq<string>, gaps: seq<string>)
    requires |words| >= 1 && |gaps| == |words| - 1
    requires forall k :: 0 <= k < |words| ==> IsWord(words[k])
    ensures var s := JoinGaps(words, gaps);
      s != [] && !IsWhitespace(s[0]) && !IsWhitespace(s[|s| - 1])
  {
    assert IsWord(words[0]);
    if |words| > 1 {
      JoinGapsEnds(words[1..], gaps[1..]);
      var rest := JoinGaps(words[1..], gaps[1..]);
      assert JoinGaps(words, gaps) == words[0] + gaps[0] + rest;
    }
  }

  /**
   * `add`: the name is lower-cased, the URL kept as written, and the message
   * words rejoined with single spaces, however they were spaced.
   */
  lemma ParseAdd(lead: string, action: string, name: string, url: string, words: seq<string>,
                 gaps: seq<string>, trail: string)
    requires AllWhitespace(lead) && AllWhitespace(trail)
    requires ToLower(action) == "add"
    requires IsWord(action) && IsWord(name) && IsWord(url)
    requires forall k :: 0 <= k < |words| ==> IsWord(words[k])
    requires |gaps| == |words| + 2
    requires forall k :: 0 <= k < |gaps| ==> IsGap(gaps[k])
    ensures IsSetupCommand(Prefix + lead + JoinGaps([action, name, url] + words, gaps) + trail)
    ensures Parse(Prefix + lead + JoinGaps([action, name, url] + words, gaps) + trail)
         == AddRequest(ToLower(name), url, JoinWith(words, " "))
  {
    var all := [action, name, url] + words;
    WordsAfterThree(action, name, url, words);
    ArgsOfWords(lead, all, gaps, trail);
    assert all[3..] == words;
  }

  /** `edit`: only the name and the URL are read; any further words are ignored. */
  lemma ParseEdit(lead: string, action: string, name: string, url: string, rest: seq<string>,
                  gaps: seq<string>, trail: string)
    requires AllWhitespace(lead) && AllWhitespace(trail)
    requires ToLower(action) == "edit"
    requires IsWord(action) && IsWord(name) && IsWord(url)
    requires forall k :: 0 <= k < |rest| ==> IsWord(rest[k])
    requires |gaps| == |rest| + 2
    requires forall k :: 0 <= k < |gaps| ==> IsGap(gaps[k])
    ensures IsSetupCommand(Prefix + lead + JoinGaps([action, name, url] + rest, gaps) + trail)
    ensures Parse(Prefix + lead + JoinGaps([action, name, url] + rest, gaps) + trail)
         == EditRequest(ToLower(name), url)
  {
    var all := [action, name, url] + rest;
    WordsAfterThree(action, name, url, rest);
    ArgsOfWords(lead, all, gaps, trail);
    ParseEditArgs(Prefix + lead + JoinGaps(all, gaps) + trail, all);
  }

  lemma ParseEditArgs(content: string, args: seq<string>)
    requires IsSetupCommand(content) && Args(content) == args
    requires |args| >= 3 && ToLower(args[0]) == "edit"
    ensures Parse(content) == EditRequest(ToLower(args[1]), args[2])
  {
    assert ToLower(args[0]) != "add";
  }

  /** `delete`: only the name is read, lower-cased; any further words are ignored. */
  lemma ParseDelete(lead: string, action: string, name: string, rest: seq<string>,
                    gaps: seq<string>, trail: string)
    requires AllWhitespace(lead) && AllWhitespace(trail)
    requires ToLower(action) == "delete"
    requires IsWord(action) && IsWord(name)
    requires forall k :: 0 <= k < |rest| ==> IsWord(rest[k])
    requires |gaps| == |rest| + 1
    requires forall k :: 0 <= k < |gaps| ==> IsGap(gaps[k])
    ensures IsSetupCommand(Prefix + lead + JoinGaps([action, name] + rest, gaps) + trail)
    ensures Parse(Prefix + lead + JoinGaps([action, name] + rest, gaps) + trail) == DeleteRequest(ToLower(name))
  {
    var all := [action, name] + rest;
    WordsAfterTwo(action, name, rest);
    ArgsOfWords(lead, all, gaps, trail);
    ParseDeleteArgs(Prefix + lead + JoinGaps(all, gaps) + trail, all);
  }

  lemma WordsAfterTwo(a: string, b: string, rest: seq<string>)
    requires IsWord(a) && IsWord(b)
    requires forall k :: 0 <= k < |rest| ==> IsWord(rest[k])
    ensures forall k :: 0 <= k < |[a, b] + rest| ==> IsWord(([a, b] + rest)[k])
  {
  }

  lemma ParseDeleteArgs(content: string, args: seq<string>)
    requires IsSetupCommand(content) && Args(content) == args
    requires |args| >= 2 && ToLower(args[0]) == "delete"
    ensures Parse(content) == DeleteRequest(ToLower(args[1]))
  {
    assert ToLower(args[0]) != "add" && ToLower(args[0]) != "edit";
  }

  /** A bare prefix, or a prefix followed by whitespace only, names no action. */
  lemma ParseBlank(trail: string)
    requires AllWhitespace(trail)
    ensures IsSetupCommand(Prefix + trail)
    ensures Parse(Prefix + trail) == UnknownAction
  {
    var content := Prefix + trail;
    assert content[..|Prefix|] == Prefix;
    assert content[|Prefix|..] == "" + "" + trail;
    TrimPadded("", "", trail);
    assert SplitSpaces("") == [""];
  }

  /**
   * `add` or `edit` with fewer than three words, or `delete` alone: the
   * missing arguments read as empty, so the request is refused with that
   * action's usage reply whatever the table holds.
   */
  lemma ParseShort(t: Table, lead: string, words: seq<string>, gaps: seq<string>, trail: string)
    requires AllWhitespace(lead) && AllWhitespace(trail)
    requires 1 <= |words| <= 2 && |gaps| == |words| - 1
    requires forall k :: 0 <= k < |words| ==> IsWord(words[k])
    requires forall k :: 0 <= k < |gaps| ==> IsGap(gaps[k])
    ensures IsSetupCommand(Prefix + lead + JoinGaps(words, gaps) + trail)
    ensures var req := Parse(Prefix + lead + JoinGaps(words, gaps) + trail);
      && (ToLower(words[0]) == "add" ==>
            req == AddRequest(ToLower(Arg(words, 1)), "", "") && Execute(t, req) == Refuse(AddUsage))
      && (ToLower(words[0]) == "edit" ==>
            req == EditRequest(ToLower(Arg(words, 1)), "") && Execute(t, req) == Refuse(EditUsage))
      && (ToLower(words[0]) == "delete" && |words| == 1 ==>
            req == DeleteRequest("") && Execute(t, req) == Refuse(DeleteUsage))
  {
    ArgsOfWords(lead, words, gaps, trail);
    ParseShortArgs(t, Prefix + lead + JoinGaps(words, gaps) + trail, words);
  }

  lemma ParseShortArgs(t: Table, content: string, args: seq<string>)
    requires IsSetupCommand(content) && Args(content) == args && 1 <= |args| <= 2
    ensures var req := Parse(content);
      && (ToLower(args[0]) == "add" ==>
            req == AddRequest(ToLower(Arg(args, 1)), "", "") && Execute(t, req) == Refuse(AddUsage))
      && (ToLower(args[0]) == "edit" ==>
            req == EditRequest(ToLower(Arg(args, 1)), "") && Execute(t, req) == Refuse(EditUsage))
      && (ToLower(args[0]) == "delete" && |args| == 1 ==>
            req == DeleteRequest("") && Execute(t, req) == Refuse(DeleteUsage))
  {
    assert ToLower("") == "";
  }

  /** Any other action word gets the generic usage reply, whatever the table holds. */
  lemma ParseUnknown(t: Table, lead: string, words: seq<string>, gaps: seq<string>, trail: string)
    requires AllWhitespace(lead) && AllWhitespace(trail)
    requires |words| >= 1 && |gaps| == |words| - 1
    requires forall k :: 0 <= k < |words| ==> IsWord(words[k])
    requires forall k :: 0 <= k < |gaps| ==> IsGap(gaps[k])
    requires ToLower(words[0]) != "add" && ToLower(words[0]) != "edit" && ToLower(words[0]) != "delete"
    ensures IsSetupCommand(Prefix + lead + JoinGaps(words, gaps) + trail)
    ensures Parse(Prefix + lead + JoinGaps(words, gaps) + trail) == UnknownAction
    ensures Execute(t, Parse(Prefix + lead + JoinGaps(words, gaps) + trail)) == Refuse(ActionUsage)
  {
    ArgsOfWords(lead, words, gaps, trail);
  }

  // ----- replies -----

  /** What the handler replies to a setup command. */
  datatype Reply =
    | WrongChannel
    | AddUsage
    | Created(name: string)
    | SaveFailed
    | EditUsage
    | NotFound(name: string)
    | GifLimit
    | GifAdded(name: string, count: nat)
    | DeleteUsage
    | Deleted(name: string)
    | DeleteFailed
    | ActionUsage
  {
    predicate IsSuccess() {
      Created? || GifAdded? || Deleted?
    }
  }

  const Cross := '\U{274C}'
  const Check := '\U{2705}'

  /** The text of each reply, as the handler sends it. */
  function ReplyText(r: Reply): (s: string) {
    match r
    case WrongChannel => [Cross] + " Command setup can only be used in the designated setup channel."
    case AddUsage =>
      [Cross] + " Usage: `/command add <name> <gif_url> <message>`\nUse `{@user}` for mentioned user and `{@me}` for command user"
    case Created(n) => [Check] + " Command `" + n + "` has been created!"
    case SaveFailed => [Cross] + " Failed to save command."
    case EditUsage => [Cross] + " Usage: `/command edit <name> <gif_url>`"
    case NotFound(n) => [Cross] + " Command `" + n + "` does not exist."
    case GifLimit => [Cross] + " Maximum 5 GIFs per command."
    case GifAdded(n, k) => [Check] + " Added GIF to `" + n + "` (" + NatToString(k) + "/5 GIFs)"
    case DeleteUsage => [Cross] + " Usage: `/command delete <name>`"
    case Deleted(n) => [Check] + " Command `" + n + "` has been deleted."
    case DeleteFailed => [Cross] + " Failed to delete command."
    case ActionUsage => [Cross] + " Usage: `/command add/edit/delete`"
  }

  /** Successful replies start with a check mark, all others with a cross. */
  lemma ReplyMarks(r: Reply)
    ensures |ReplyText(r)| > 0
    ensures ReplyText(r)[0] == Check <==> r.IsSuccess()
    ensures ReplyText(r)[0] == Cross <==> !r.IsSuccess()
  {
    assert Check != Cross;
    match r
    case Created(_) =>
    case GifAdded(_, _) =>
    case Deleted(_) =>
    case _ =>
  }

  // ----- effects -----

  /**
   * What a request does to the table: either it is refused with a reply and
   * changes nothing, or it commits a new table, which is then saved; the
   * reply depends on whether the save succeeded.
   */
  datatype Effect =
    | Refuse(reply: Reply)
    | Commit(table: Table, saved: Reply, unsaved: Reply)

  function Execute(t: Table, req: Request): (e: Effect)
    ensures e.Refuse? ==> !e.reply.IsSuccess()
    ensures e.Commit? ==> !req.UnknownAction? && e.saved.IsSuccess() && !e.unsaved.IsSuccess()
  {
    match req
    case AddRequest(name, url, message) =>
      if name == "" || url == "" || message == "" then Refuse(AddUsage)
      else Commit(Put(t, name, Command(message, [url])), Created(name), SaveFailed)
    case EditRequest(name, url) =>
      if name == "" || url == "" then Refuse(EditUsage)
      else (match Lookup(t, name)
        case None => Refuse(NotFound(name))
        case Some(c) =>
          if |c.gifs| >= MaxGifs then Refuse(GifLimit)
          else Commit(Put(t, name, Command(c.message, c.gifs + [url])), GifAdded(name, |c.gifs| + 1), SaveFailed))
    case DeleteRequest(name) =>
      if name == "" then Refuse(DeleteUsage)
      else if Lookup(t, name).None? then Refuse(NotFound(name))
      else Commit(Remove(t, name), Deleted(name), DeleteFailed)
    case UnknownAction => Refuse(ActionUsage)
  }

  /**
   * `add` is refused exactly when an argument is missing; otherwise it
   * creates or silently overwrites the entry with one GIF and leaves every
   * other entry, and the order of the keys, as it was.
   */
  lemma ExecuteAdd(t: Table, name: string, url: string, message: string)
    requires UniqueKeys(t)
    ensures var e := Execute(t, AddRequest(name, url, message));
      && (e.Refuse? <==> name == "" || url == "" || message == "")
      && (e.Refuse? ==> e.reply == AddUsage)
      && (e.Commit? ==>
            && Lookup(e.table, name) == Some(Command(message, [url]))
            && (forall k :: k != name ==> Lookup(e.table, k) == Lookup(t, k))
            && Names(e.table) == (if name in Names(t) then Names(t) else Names(t) + [name])
            && UniqueKeys(e.table)
            && e.saved == Created(name) && e.unsaved == SaveFailed)
  {
    var e := Execute(t, AddRequest(name, url, message));
    if e.Commit? {
      var c := Command(message, [url]);
      PutSame(t, name, c);
      forall k | k != name ensures Lookup(e.table, k) == Lookup(t, k) {
        PutOther(t, name, c, k);
      }
      PutNames(t, name, c);
      PutUnique(t, name, c);
    }
  }

  /**
   * `edit` is refused on a missing argument, an unknown name, or a full GIF
   * list; otherwise it appends the URL to that entry's list, so the list
   * grows by one, and the reply reports the new length, at most five.
   */
  lemma ExecuteEdit(t: Table, name: string, url: string)
    requires UniqueKeys(t)
    ensures var e := Execute(t, EditRequest(name, url));
      && ((name == "" || url == "") ==> e == Refuse(EditUsage))
      && ((name != "" && url != "" && Lookup(t, name).None?) ==> e == Refuse(NotFound(name)))
      && ((name != "" && url != "" && Lookup(t, name).Some? && |Lookup(t, name).value.gifs| >= MaxGifs)
            ==> e == Refuse(GifLimit))
      && (e.Commit? <==> name != "" && url != "" && Lookup(t, name).Some? && |Lookup(t, name).value.gifs| < MaxGifs)
      && (e.Commit? ==>
            var c := Lookup(t, name).value;
            && Lookup(e.table, name) == Some(Command(c.message, c.gifs + [url]))
            && (forall k :: k != name ==> Lookup(e.table, k) == Lookup(t, k))
            && Names(e.table) == Names(t)
            && UniqueKeys(e.table)
            && e.saved == GifAdded(name, |c.gifs| + 1) && |c.gifs| + 1 <= MaxGifs
            && e.unsaved == SaveFailed)
  {
    var e := Execute(t, EditRequest(name, url));
    if e.Commit? {
      var c := Lookup(t, name).value;
      var c' := Command(c.message, c.gifs + [url]);
      PutSame(t, name, c');
      forall k | k != name ensures Lookup(e.table, k) == Lookup(t, k) {
        PutOther(t, name, c', k);
      }
      PutNames(t, name, c');
      PutUnique(t, name, c');
    }
  }

  /**
   * `delete` is refused on a missing or unknown name; otherwise it removes
   * exactly that entry, keeping the others in order.
   */
  lemma ExecuteDelete(t: Table, name: string)
    requires UniqueKeys(t)
    ensures var e := Execute(t, DeleteRequest(name));
      && (name == "" ==> e == Refuse(DeleteUsage))
      && (name != "" && Lookup(t, name).None? ==> e == Refuse(NotFound(name)))
      && (e.Commit? <==> name != "" && Lookup(t, name).Some?)
      && (e.Commit? ==>
            && e.table == Without(t, name)
            && Lookup(e.table, name) == None
            && (forall k :: k != name ==> Lookup(e.table, k) == Lookup(t, k))
            && |e.table| == |t| - 1
            && UniqueKeys(e.table)
            && e.saved == Deleted(name) && e.unsaved == DeleteFailed)
  {
    var e := Execute(t, DeleteRequest(name));
    if e.Commit? {
      RemoveIsWithout(t, name);
      LookupRemove(t, name, name);
      forall k | k != name ensures Lookup(e.table, k) == Lookup(t, k) {
        LookupRemove(t, name, k);
      }
    }
  }

  /** Every committed table keeps the keys unique, whatever the GIF lists hold. */
  lemma ExecuteKeepsKeys(t: Table, req: Request)
    requires UniqueKeys(t)
    ensures Execute(t, req).Commit? ==> UniqueKeys(Execute(t, req).table)
  {
    match req
    case AddRequest(name, url, message) =>
      ExecuteAdd(t, name, url, message);
    case EditRequest(name, url) =>
      ExecuteEdit(t, name, url);
    case DeleteRequest(name) =>
      ExecuteDelete(t, name);
    case UnknownAction =>
  }

  /** Every committed table keeps its keys unique and every GIF list between one and five long. */
  lemma ExecutePreservesInvariant(t: Table, req: Request)
    requires UniqueKeys(t) && GifBounded(t)
    ensures Execute(t, req).Commit? ==> UniqueKeys(Execute(t, req).table) && GifBounded(Execute(t, req).table)
  {
    match req
    case AddRequest(name, url, message) =>
      ExecuteAdd(t, name, url, message);
      PutBounded(t, name, Command(message, [url]));
    case EditRequest(name, url) =>
      ExecuteEdit(t, name, url);
      if Execute(t, req).Commit? {
        var c := Lookup(t, name).value;
        var i := Find(t, name).value;
        assert c == t[i].1;
        PutBounded(t, name, Command(c.message, c.gifs + [url]));
      }
    case DeleteRequest(name) =>
      ExecuteDelete(t, name);
      RemoveBounded(t, name);
    case UnknownAction =>
  }

  // ----- the table lookup as the handler writes it -----

  /**
   * The lower-case names under which a plain JavaScript object already has
   * a truthy property inherited from `Object.prototype`.
   */
  const InheritedNames: set<string> := {"constructor", "__proto__"}

  /** `!customCommands[name]` as written: inherited properties count as present. */
  predicate PresentAsWritten(t: Table, name: string) {
    Lookup(t, name).Some? || name in InheritedNames
  }

  /** The `delete` branch as written, with the inherited-property lookup. */
  function DeleteAsWritten(t: Table, name: string): (e: Effect)
    ensures name !in InheritedNames ==> e == Execute(t, DeleteRequest(name))
    ensures name in InheritedNames && name !in Names(t) ==> e == Commit(t, Deleted(name), DeleteFailed)
  {
    if name == "" then Refuse(DeleteUsage)
    else if !PresentAsWritten(t, name) then Refuse(NotFound(name))
    else Commit(Remove(t, name), Deleted(name), DeleteFailed)
  }

  /**
   * On an empty table, `/command delete constructor` reports that the command
   * was deleted, and rewrites the file, although no such command exists; the
   * own-key lookup of `Execute` reports that it does not exist.
   */
  lemma DeleteConstructorAsWritten()
    ensures DeleteAsWritten([], "constructor") == Commit([], Deleted("constructor"), DeleteFailed)
    ensures Execute([], DeleteRequest("constructor")) == Refuse(NotFound("constructor"))
  {
    assert "constructor" in InheritedNames;
  }

  /**
   * The `add` branch as written: assigning to `customCommands["__proto__"]`
   * replaces the object's prototype instead of creating an entry, unless the
   * loaded file gave the table an own `__proto__` key, which is then
   * overwritten like any other.
   */
  function AddAsWritten(t: Table, name: string, url: string, message: string): (e: Effect)
    ensures name != "__proto__" || "__proto__" in Names(t) ==> e == Execute(t, AddRequest(name, url, message))
    ensures name == "__proto__" && "__proto__" !in Names(t) && url != "" && message != ""
         ==> e == Commit(t, Created(name), SaveFailed)
  {
    if name == "" || url == "" || message == "" then Refuse(AddUsage)
    else if name == "__proto__" && "__proto__" !in Names(t) then Commit(t, Created(name), SaveFailed)
    else Commit(Put(t, name, Command(message, [url])), Created(name), SaveFailed)
  }

  /**
   * `/command add __proto__ <url> <message>` reports that the command was
   * created, yet the table, the saved file and so the trigger scan never
   * see it; the own-key assignment of `Execute` creates the entry.
   */
  lemma AddProtoAsWritten(t: Table, url: string, message: string)
    requires UniqueKeys(t) && "__proto__" !in Names(t) && url != "" && message != ""
    ensures AddAsWritten(t, "__proto__", url, message) == Commit(t, Created("__proto__"), SaveFailed)
    ensures var e := Execute(t, AddRequest("__proto__", url, message));
      e.Commit? && Lookup(e.table, "__proto__") == Some(Command(message, [url]))
  {
    ExecuteAdd(t, "__proto__", url, message);
  }
}
