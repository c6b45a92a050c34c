/**
 * The trigger scan of the `messageCreate` handler: for a message that
 * mentions someone, the first command whose lower-cased name occurs in the
 * lower-cased text fires, and its template is rendered with one of its GIFs.
 */
module Trigger {
  import opened Wrappers
  import opened Text
  import opened Commands

  /**
   * A user as the handler sees them; `displayName` is the display name of
   * their guild member when the member cache holds one.
   */
  datatype User = User(username: string, isBot: bool, displayName: Option<string>)

  /** The parts of an incoming message the handler reads; `mentions` in mention order. */
  datatype Message = Message(author: User, channelId: string, content: string, mentions: seq<User>)

  /** `member?.displayName || user.username`: an absent or empty display name falls back to the username. */
  function ShownName(u: User): (r: string)
    ensures u.displayName.Some? && u.displayName.value != "" ==> r == u.displayName.value
    ensures u.displayName.None? || u.displayName.value == "" ==> r == u.username
    ensures r == "" ==> u.username == ""
  {
    if u.displayName.Some? && u.displayName.value != "" then u.displayName.value else u.username
  }

  const UserToken := "{@user}"
  const MeToken := "{@me}"

  /**
   * The mentioned user's name replaces every `{@user}`; then the author's name
   * replaces every `{@me}`. A template without placeholders is sent as it is.
   */
  function Render(template: string, mentioned: string, author: string): (r: string)
    ensures !Contains(template, UserToken) && !Contains(template, MeToken) ==> r == template
  {
    ReplaceAll(ReplaceAll(template, UserToken, mentioned), MeToken, author)
  }

  /** Both placeholders are replaced at every occurrence, and the text between them is kept. */
  lemma RenderIsGlobal(template: string, mentioned: string, author: string)
    ensures Render(template, mentioned, author)
         == JoinWith(SplitOn(JoinWith(SplitOn(template, UserToken), mentioned), MeToken), author)
    ensures JoinWith(SplitOn(template, UserToken), UserToken) == template
  {
    ReplaceAllIsSplitJoin(template, UserToken, mentioned);
    ReplaceAllIsSplitJoin(ReplaceAll(template, UserToken, mentioned), MeToken, author);
    JoinSplitOn(template, UserToken);
  }

  /** No `{@user}` starts inside a leading `{@me}`. */
  lemma MeThenNoUser(b: string)
    ensures NoneStartsIn(MeToken, b, UserToken)
  {
    var s := MeToken + b;
    forall j | 0 <= j < |MeToken| ensures !OccursAt(s, UserToken, j) {
      if j + |UserToken| <= |s| {
        if j == 0 {
          assert s[j..j + |UserToken|][2] == s[2] == 'm';
        } else {
          assert s[j..j + |UserToken|][0] == s[j] == MeToken[j];
        }
      }
    }
  }

  lemma UserPassMeThenUser(x: string, mentioned: string)
    requires '{' !in x
    ensures ReplaceAll(MeToken + x + UserToken, UserToken, mentioned) == MeToken + (x + mentioned)
  {
    var u, me := UserToken, MeToken;
    assert me + x + u == me + (x + u);
    MeThenNoUser(x + u);
    ReplaceAllAfter(me, x + u, u, mentioned);
    ReplaceAllAfterFree(x, u, u, mentioned);
    assert u + "" == u;
    ReplaceAllAtStart(u, "", mentioned);
    ReplaceAllFree("", u, mentioned);
  }

  /** The author, then a text, then the mentioned user: `{@me} pokes {@user}`. */
  lemma RenderMeThenUser(x: string, mentioned: string, author: string)
    requires '{' !in x && '{' !in mentioned
    ensures Render(MeToken + x + UserToken, mentioned, author) == author + x + mentioned
  {
    UserPassMeThenUser(x, mentioned);
    ReplaceAllAtStart(MeToken, x + mentioned, author);
    ReplaceAllFree(x + mentioned, MeToken, author);
  }

  lemma Regroup(a: string, b: string, c: string, d: string, e: string, f: string)
    ensures a + b + c + d + e + f == a + (b + (c + (d + (e + f))))
  {
  }

  /** Global substitution: every `{@user}` is replaced, not only the first. */
  lemma RenderRepeated(mentioned: string, author: string)
    requires '{' !in mentioned
    ensures Render(MeToken + " hugs " + UserToken + " again, " + UserToken + "!", mentioned, author)
         == author + " hugs " + mentioned + " again, " + mentioned + "!"
  {
    var u, me, m := UserToken, MeToken, mentioned;
    var h, g, e := " hugs ", " again, ", "!";
    Regroup(me, h, u, g, u, e);
    MeThenNoUser(h + (u + (g + (u + e))));
    ReplaceAllAfter(me, h + (u + (g + (u + e))), u, m);
    ReplaceAllAfterFree(h, u + (g + (u + e)), u, m);
    ReplaceAllAtStart(u, g + (u + e), m);
    ReplaceAllAfterFree(g, u + e, u, m);
    ReplaceAllAtStart(u, e, m);
    ReplaceAllFree(e, u, m);
    var rest := h + (m + (g + (m + e)));
    assert ReplaceAll(me + h + u + g + u + e, u, m) == me + rest;
    ReplaceAllAtStart(me, rest, author);
    ReplaceAllFree(rest, me, author);
    Regroup(author, h, m, g, m, e);
  }

  /** `{@me} hugs {@user} again, {@user}!` from Al to Bo reads `Al hugs Bo again, Bo!`. */
  lemma RenderHugsAgain()
    ensures Render("{@me} hugs {@user} again, {@user}!", "Bo", "Al") == "Al hugs Bo again, Bo!"
  {
    HugsPieces();
    RenderRepeated("Bo", "Al");
  }

  lemma HugsPieces()
    ensures "{@me} hugs {@user} again, {@user}!" == MeToken + " hugs " + UserToken + " again, " + UserToken + "!"
    ensures "Al hugs Bo again, Bo!" == "Al" + " hugs " + "Bo" + " again, " + "Bo" + "!"
  {
  }

  lemma UserPassOrder(x: string)
    requires '{' !in x
    ensures ReplaceAll(UserToken + x + MeToken, UserToken, MeToken) == MeToken + (x + MeToken)
  {
    var u, me := UserToken, MeToken;
    assert u + x + me == u + (x + me);
    ReplaceAllAtStart(u, x + me, me);
    ReplaceAllAfterFree(x, me, u, me);
    IndexOfIsNone(me, u);
    ReplaceAllNone(me, u, me);
  }

  lemma MePassTwice(x: string, author: string)
    requires '{' !in x
    ensures ReplaceAll(MeToken + (x + MeToken), MeToken, author) == author + (x + author)
  {
    var me := MeToken;
    ReplaceAllAtStart(me, x + me, author);
    ReplaceAllAfterFree(x, me, me, author);
    assert me + "" == me;
    ReplaceAllAtStart(me, "", author);
    ReplaceAllFree("", me, author);
  }

  /** The order matters: a mentioned name that itself reads `{@me}` is then replaced by the author's name. */
  lemma RenderOrder(x: string, author: string)
    requires '{' !in x
    ensures Render(UserToken + x + MeToken, MeToken, author) == author + x + author
  {
    UserPassOrder(x);
    MePassTwice(x, author);
    assert author + (x + author) == author + x + author;
  }

  // ----- choosing a GIF -----

  /** A value of `Math.random()`, taken exactly as the fraction `num / den`. */
  datatype RandomDraw = RandomDraw(num: nat, den: nat)

  /** `Math.random()` lies in [0, 1). */
  type Draw = d: RandomDraw | d.num < d.den witness RandomDraw(0, 1)

  lemma DivBelow(x: nat, den: nat, n: nat)
    requires den > 0 && x < den * n
    ensures x / den < n
  {
    var q := x / den;
    assert den * q <= x;
    assert den * (n - q) > 0;
  }

  lemma MulAtLeast(n: nat, d: nat)
    requires d >= 1
    ensures n * d >= n
  {
    assert n * d == n * (d - 1) + n;
  }

  lemma MulDiv(i: nat, n: nat)
    requires n > 0
    ensures (i * n) / n == i
  {
    var q := (i * n) / n;
    assert i * n == n * q + (i * n) % n;
    if q < i {
      MulAtLeast(n, i - q);
    }
  }

  /** `Math.floor(Math.random() * n)`: an index into a list of `n` GIFs. */
  function GifIndex(d: Draw, n: nat): (i: nat)
    ensures n > 0 ==> i < n
    ensures n == 0 ==> i == 0
  {
    if n > 0 then
      assert d.num * n < d.den * n;
      DivBelow(d.num * n, d.den, n);
      d.num * n / d.den
    else
      d.num * n / d.den
  }

  /** `command.gifs[Math.floor(Math.random() * command.gifs.length)]`; `undefined` on an empty list. */
  function PickGif(gifs: seq<string>, d: Draw): (g: Option<string>)
    ensures |gifs| > 0 ==> g.Some? && g.value in gifs
    ensures |gifs| == 0 ==> g.None?
  {
    var i := GifIndex(d, |gifs|);
    if i < |gifs| then Some(gifs[i]) else None
  }

  /** Every GIF in the list is the one picked for some value of `Math.random()`. */
  lemma EveryGifCanBePicked(gifs: seq<string>, i: nat)
    requires i < |gifs|
    ensures PickGif(gifs, RandomDraw(i, |gifs|)) == Some(gifs[i])
  {
    MulDiv(i, |gifs|);
  }

  // ----- the scan -----

  /** `messageContent.includes(commandName.toLowerCase())`: substring test, no word boundaries. */
  predicate Fires(e: Entry, text: string) {
    Contains(text, ToLower(e.0))
  }

  /** The first entry at or after position `i` that fires. */
  function FirstTriggerFrom(t: Table, text: string, i: nat): (r: Option<nat>)
    requires i <= |t|
    ensures r.Some? ==> i <= r.value < |t| && Fires(t[r.value], text)
    ensures r.Some? ==> forall j :: i <= j < r.value ==> !Fires(t[j], text)
    ensures r.None? ==> forall j :: i <= j < |t| ==> !Fires(t[j], text)
    decreases |t| - i
  {
    if i == |t| then None
    else if Fires(t[i], text) then Some(i)
    else FirstTriggerFrom(t, text, i + 1)
  }

  /** The entry that fires for a lower-cased message text: the first one, in iteration order, whose name occurs in it. */
  function FirstTrigger(t: Table, text: string): (r: Option<nat>)
    ensures r.Some? ==> r.value < |t| && Fires(t[r.value], text)
    ensures r.None? ==> forall j :: 0 <= j < |t| ==> !Fires(t[j], text)
  {
    FirstTriggerFrom(t, text, 0)
  }

  /** First match wins: an entry fires exactly when it matches and no earlier entry does; none fires exactly when none matches. */
  lemma FirstTriggerIff(t: Table, text: string, k: nat)
    ensures FirstTrigger(t, text) == Some(k)
        <==> k < |t| && Fires(t[k], text) && forall j :: 0 <= j < k ==> !Fires(t[j], text)
    ensures FirstTrigger(t, text).None? <==> forall j :: 0 <= j < |t| ==> !Fires(t[j], text)
  {
    var r := FirstTrigger(t, text);
    if r.Some? && r.value != k && k < |t| && Fires(t[k], text) {
      if r.value < k {
        assert Fires(t[r.value], text);
      }
    }
  }

  /** What the handler posts for a message that is not a setup command. */
  datatype Post = Post(text: string, gif: Option<string>)

  function Respond(t: Table, m: Message, d: Draw): (r: Option<Post>)
    ensures r.Some? ==> |m.mentions| > 0 && FirstTrigger(t, ToLower(m.content)).Some?
  {
    if |m.mentions| == 0 then None
    else
      match FirstTrigger(t, ToLower(m.content))
      case None => None
      case Some(k) =>
        var c := t[k].1;
        Some(Post(Render(c.message, ShownName(m.mentions[0]), ShownName(m.author)), PickGif(c.gifs, d)))
  }

  /**
   * Something is posted exactly when the message mentions a user and some
   * command name occurs in its text; the post renders the first such
   * command's template and carries one of that command's GIFs.
   */
  lemma RespondSpec(t: Table, m: Message, d: Draw)
    ensures Respond(t, m, d).Some?
        <==> |m.mentions| > 0 && exists j :: 0 <= j < |t| && Fires(t[j], ToLower(m.content))
    ensures Respond(t, m, d).Some? ==>
      var k := FirstTrigger(t, ToLower(m.content)).value;
      var p := Respond(t, m, d).value;
      && k < |t| && Fires(t[k], ToLower(m.content))
      && (forall j :: 0 <= j < k ==> !Fires(t[j], ToLower(m.content)))
      && p.text == Render(t[k].1.message, ShownName(m.mentions[0]), ShownName(m.author))
      && (GifBounded(t) ==> p.gif.Some? && p.gif.value in t[k].1.gifs)
  {
    var text := ToLower(m.content);
    match FirstTrigger(t, text)
    case None =>
      FirstTriggerIff(t, text, 0);
    case Some(k) =>
      FirstTriggerIff(t, text, k);
  }

  /** Matching is case-insensitive and by substring: `hug` fires on `HUGGING you`. */
  lemma HugFiresOnHugging(c: Command)
    ensures Fires(("hug", c), ToLower("HUGGING you"))
  {
    var text := ToLower("HUGGING you");
    assert text == "hugging you";
    assert ToLower("hug") == "hug";
    assert text[0..3] == "hug";
    ContainsAt(text, "hug", 0);
  }

  /** When two names occur, only the earlier entry fires. */
  lemma FirstOfTwoWins(a: Command, b: Command)
    ensures FirstTrigger([("you", a), ("hug", b)], ToLower("HUGGING you")) == Some(0)
  {
    var t := [("you", a), ("hug", b)];
    var text := ToLower("HUGGING you");
    assert text == "hugging you";
    assert ToLower(t[0].0) == "you";
    assert OccursAt(text, "you", 8);
    ContainsAt(text, "you", 8);
    FirstTriggerIff(t, text, 0);
  }

  lemma PokeFires(t: Table)
    requires |t| == 1 && t[0].0 == "poke"
    ensures FirstTrigger(t, ToLower("hey @Bo poke")) == Some(0)
  {
    var text := ToLower("hey @Bo poke");
    assert text == "hey @bo poke";
    assert ToLower(t[0].0) == "poke";
    assert OccursAt(text, "poke", 8);
    ContainsAt(text, "poke", 8);
    FirstTriggerIff(t, text, 0);
  }

  lemma RespondWith(t: Table, m: Message, d: Draw, k: nat)
    requires |m.mentions| > 0 && FirstTrigger(t, ToLower(m.content)) == Some(k)
    ensures Respond(t, m, d)
         == Some(Post(Render(t[k].1.message, ShownName(m.mentions[0]), ShownName(m.author)), PickGif(t[k].1.gifs, d)))
  {
  }

  lemma RenderPokes()
    ensures Render("{@me} pokes {@user}", "Bo", "Al") == "Al pokes Bo"
  {
    PokePieces();
    RenderMeThenUser(" pokes ", "Bo", "Al");
  }

  lemma PokePieces()
    ensures "{@me} pokes {@user}" == MeToken + " pokes " + UserToken
    ensures "Al pokes Bo" == "Al" + " pokes " + "Bo"
    ensures '{' !in " pokes " && '{' !in "Bo"
  {
  }

  /** The poke scenario: Al's `hey @Bo poke` posts `Al pokes Bo` with the command's only GIF. */
  lemma PokeScenario(d: Draw)
    ensures
      var t := [("poke", Command("{@me} pokes {@user}", ["http://x/1.gif"]))];
      var bo := User("Bo", false, None);
      var al := User("Al", false, None);
      Respond(t, Message(al, "general", "hey @Bo poke", [bo]), d) == Some(Post("Al pokes Bo", Some("http://x/1.gif")))
  {
    var g := "http://x/1.gif";
    var t := [("poke", Command("{@me} pokes {@user}", [g]))];
    var bo := User("Bo", false, None);
    var al := User("Al", false, None);
    var m := Message(al, "general", "hey @Bo poke", [bo]);
    PokeFires(t);
    RespondWith(t, m, d, 0);
    assert ShownName(bo) == "Bo" && ShownName(al) == "Al";
    RenderPokes();
    assert PickGif([g], d) == Some(g);
  }
}
