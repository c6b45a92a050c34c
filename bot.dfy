/**
 * The `messageCreate` handler and the in-memory table `customCommands` it
 * mutates: the bot object holds the table, carries out `/command add`,
 * `edit` and `delete` in place and saves after each change, and scans the
 * table for a trigger on every other message.
 */
module Bot {
  import opened Wrappers
  import opened Text
  import opened Commands
  import opened Store
  import opened Protocol
  import opened Trigger

  /** What the handler does visibly with a message. */
  datatype Response = Silent | Replied(reply: Reply) | Posted(post: Post)

  /**
   * The handler as a function of the table before the message: the table
   * after it, whether `saveCommands` was called (with that table), and the
   * response. `saveOk` is whether the write succeeds; `d` is the value of
   * `Math.random()`.
   */
  datatype Outcome = Outcome(table: Table, save: bool, response: Response)

  function Dispatch(t: Table, m: Message, saveOk: bool, d: Draw): (o: Outcome)
    ensures o.save ==> !m.author.isBot && IsSetupCommand(m.content) && m.channelId == SetupChannelId
    ensures o.response.Replied? && o.response.reply.IsSuccess() ==> o.save && saveOk
  {
    if m.author.isBot then Outcome(t, false, Silent)
    else if IsSetupCommand(m.content) then
      if m.channelId != SetupChannelId then Outcome(t, false, Replied(WrongChannel))
      else
        match Execute(t, Parse(m.content))
        case Refuse(r) => Outcome(t, false, Replied(r))
        case Commit(t', saved, unsaved) => Outcome(t', true, Replied(if saveOk then saved else unsaved))
    else
      match Respond(t, m, d)
      case None => Outcome(t, false, Silent)
      case Some(p) => Outcome(t, false, Posted(p))
  }

  /**
   * Messages from bots, this one included, are ignored outright; a setup
   * command from another channel only gets the denial reply. Only a
   * setup command from a user, in the setup channel, changes the
   * table or writes the file; every table the handler produces keeps unique
   * keys and, from a bounded table, bounded GIF lists; setup commands are
   * always answered with a reply and other messages never are; a post needs
   * a mention; and a success reply is only sent after a successful write.
   */
  lemma DispatchSpec(t: Table, m: Message, saveOk: bool, d: Draw)
    requires UniqueKeys(t)
    ensures var o := Dispatch(t, m, saveOk, d);
      && (m.author.isBot ==> o == Outcome(t, false, Silent))
      && (!m.author.isBot && IsSetupCommand(m.content) && m.channelId != SetupChannelId ==>
            o == Outcome(t, false, Replied(WrongChannel)))
      && ((o.table != t || o.save) ==> !m.author.isBot && IsSetupCommand(m.content) && m.channelId == SetupChannelId)
      && UniqueKeys(o.table)
      && (GifBounded(t) ==> GifBounded(o.table))
      && (o.response.Replied? <==> !m.author.isBot && IsSetupCommand(m.content))
      && (o.response.Posted? ==> !m.author.isBot && !IsSetupCommand(m.content) && |m.mentions| > 0)
      && (o.response.Replied? && o.response.reply.IsSuccess() ==> o.save && saveOk)
  {
    if !m.author.isBot && IsSetupCommand(m.content) && m.channelId == SetupChannelId {
      var req := Parse(m.content);
      ExecuteKeepsKeys(t, req);
      if GifBounded(t) {
        ExecutePreservesInvariant(t, req);
      }
    }
  }

  /**
   * A message that is not a setup command leaves the table and the file
   * alone, and what it posts is exactly what the trigger scan yields.
   */
  lemma OtherMessagesOnlyPost(t: Table, m: Message, saveOk: bool, d: Draw)
    requires !m.author.isBot && !IsSetupCommand(m.content)
    ensures var o := Dispatch(t, m, saveOk, d);
      && o.table == t && !o.save
      && (o.response.Posted? <==> Respond(t, m, d).Some?)
      && (o.response.Posted? ==> o.response.post == Respond(t, m, d).value)
  {
  }

  /** The state change of one mutation: what `Execute` decides, with the save's outcome. */
  ghost predicate Applied(e: Effect, saveOk: bool, t0: Table, f0: Disk, t1: Table, f1: Disk, r: Reply) {
    match e
    case Refuse(reply) => t1 == t0 && f1 == f0 && r == reply
    case Commit(t, saved, unsaved) =>
      t1 == t && f1 == (if saveOk then Written(t) else f0) && r == (if saveOk then saved else unsaved)
  }

  class Bot {
    /** `customCommands`. */
    var commands: Table
    /** `commands.json`. */
    const store: CommandStore

    ghost predicate Valid()
      reads this, store
    {
      UniqueKeys(commands) && store.Valid()
    }

    /** Start-up: `let customCommands = loadCommands()`. */
    constructor (store: CommandStore)
      requires store.Valid()
      ensures Valid() && this.store == store
      ensures commands == if store.file.Written? then store.file.table else []
    {
      this.store := store;
      var t := store.Load();
      commands := t;
    }

    /** `/command add <name> <gif_url> <message>`: assigns the entry, then saves. */
    method Add(name: string, url: string, message: string, saveOk: bool) returns (r: Reply)
      requires Valid()
      modifies this, store
      ensures Valid()
      ensures Applied(Execute(old(commands), AddRequest(name, url, message)), saveOk,
                      old(commands), old(store.file), commands, store.file, r)
    {
      if name == "" || url == "" || message == "" {
        return AddUsage;
      }
      var c := Command(message, [url]);
      var i := Find(commands, name);
      PutUnique(commands, name, c);
      if i.Some? {
        commands := commands[i.value := (name, c)];
      } else {
        commands := commands + [(name, c)];
      }
      var ok := store.Save(commands, saveOk);
      r := if ok then Created(name) else SaveFailed;
    }

    /** `/command edit <name> <gif_url>`: pushes the URL onto the entry's list in place, then saves. */
    method Edit(name: string, url: string, saveOk: bool) returns (r: Reply)
      requires Valid()
      modifies this, store
      ensures Valid()
      ensures Applied(Execute(old(commands), EditRequest(name, url)), saveOk,
                      old(commands), old(store.file), commands, store.file, r)
    {
      if name == "" || url == "" {
        return EditUsage;
      }
      var i := Find(commands, name);
      if i.None? {
        return NotFound(name);
      }
      var c := commands[i.value].1;
      if |c.gifs| >= MaxGifs {
        return GifLimit;
      }
      var c' := Command(c.message, c.gifs + [url]);
      PutUnique(commands, name, c');
      commands := commands[i.value := (name, c')];
      var ok := store.Save(commands, saveOk);
      r := if ok then GifAdded(name, |c.gifs| + 1) else SaveFailed;
    }

    /** `/command delete <name>`: deletes the entry, then saves. */
    method Delete(name: string, saveOk: bool) returns (r: Reply)
      requires Valid()
      modifies this, store
      ensures Valid()
      ensures Applied(Execute(old(commands), DeleteRequest(name)), saveOk,
                      old(commands), old(store.file), commands, store.file, r)
    {
      if name == "" {
        return DeleteUsage;
      }
      var i := Find(commands, name);
      if i.None? {
        return NotFound(name);
      }
      LookupRemove(commands, name, name);
      commands := commands[..i.value] + commands[i.value + 1..];
      var ok := store.Save(commands, saveOk);
      r := if ok then Deleted(name) else DeleteFailed;
    }

    /** The `for … of Object.entries(customCommands)` loop: the first entry that fires, stopping there (`break`). */
    method FindTrigger(text: string) returns (k: Option<nat>)
      ensures k == FirstTrigger(commands, text)
    {
      var i := 0;
      while i < |commands|
        invariant 0 <= i <= |commands|
        invariant FirstTriggerFrom(commands, text, i) == FirstTrigger(commands, text)
      {
        if Contains(text, ToLower(commands[i].0)) {
          return Some(i);
        }
        i := i + 1;
      }
      return None;
    }

    /** The whole `messageCreate` handler for one message. */
    method Handle(m: Message, saveOk: bool, d: Draw) returns (resp: Response)
      requires Valid()
      modifies this, store
      ensures Valid()
      ensures var o := Dispatch(old(commands), m, saveOk, d);
        && commands == o.table && resp == o.response
        && store.file == (if o.save && saveOk then Written(o.table) else old(store.file))
    {
      if m.author.isBot {
        return Silent;
      }
      if IsSetupCommand(m.content) {
        if m.channelId != SetupChannelId {
          return Replied(WrongChannel);
        }
        var r := Setup(Parse(m.content), saveOk);
        return Replied(r);
      }
      var p := TriggerPost(m, d);
      resp := if p.Some? then Posted(p.value) else Silent;
    }

    /** The `add`/`edit`/`delete` dispatch on the parsed action word. */
    method Setup(req: Request, saveOk: bool) returns (r: Reply)
      requires Valid()
      modifies this, store
      ensures Valid()
      ensures Applied(Execute(old(commands), req), saveOk, old(commands), old(store.file), commands, store.file, r)
    {
      match req {
        case AddRequest(name, url, message) =>
          r := Add(name, url, message, saveOk);
        case EditRequest(name, url) =>
          r := Edit(name, url, saveOk);
        case DeleteRequest(name) =>
          r := Delete(name, saveOk);
        case UnknownAction =>
          r := ActionUsage;
      }
    }

    /** The `if (message.mentions.users.size > 0)` block: the post of the first command that fires, if any. */
    method TriggerPost(m: Message, d: Draw) returns (p: Option<Post>)
      ensures p == Respond(commands, m, d)
    {
      p := None;
      if |m.mentions| > 0 {
        var k := FindTrigger(ToLower(m.content));
        if k.Some? {
          var c := commands[k.value].1;
          var text := Render(c.message, ShownName(m.mentions[0]), ShownName(m.author));
          p := Some(Post(text, PickGif(c.gifs, d)));
        }
      }
    }
  }
}
