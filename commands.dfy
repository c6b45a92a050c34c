/**
 * The `customCommands` table: a JavaScript object from command name to
 * `{message, gifs}`, modelled as its entries in iteration (insertion) order.
 * Assigning an existing key keeps its position; a new key goes to the end;
 * `delete` removes the entry and keeps the order of the others.
 */
module Commands {
  import opened Wrappers

  /** One custom command: the reply template and the GIF URLs one of which is posted with it. */
  datatype Command = Command(message: string, gifs: seq<string>)

  type Entry = (string, Command)

  type Table = seq<Entry>

  /** The cap `edit` enforces on a command's GIF list. */
  const MaxGifs: nat := 5

  function Names(t: Table): seq<string> {
    seq(|t|, i requires 0 <= i < |t| => t[i].0)
  }

  /** Object keys are unique. */
  predicate UniqueKeys(t: Table) {
    forall i, j :: 0 <= i < j < |t| ==> t[i].0 != t[j].0
  }

  /** The invariant `add` and `edit` maintain: every GIF list holds one to five URLs. */
  predicate GifBounded(t: Table) {
    forall i :: 0 <= i < |t| ==> 1 <= |t[i].1.gifs| <= MaxGifs
  }

  /** The position of the entry named `name`, if the table has one. */
  function Find(t: Table, name: string): (r: Option<nat>)
    ensures r.Some? ==> r.value < |t| && t[r.value].0 == name
    ensures r.Some? ==> forall j :: 0 <= j < r.value ==> t[j].0 != name
    ensures r.None? <==> name !in Names(t)
  {
    if |t| == 0 then None
    else if t[0].0 == name then
      assert Names(t)[0] == name;
      Some(0)
    else
      assert Names(t) == [t[0].0] + Names(t[1..]);
      match Find(t[1..], name)
      case None => None
      case Some(i) => Some(i + 1)
  }

  /** `customCommands[name]`, own keys only. */
  function Lookup(t: Table, name: string): (r: Option<Command>)
    ensures r.None? <==> name !in Names(t)
    ensures r.Some? ==> (name, r.value) in t
  {
    match Find(t, name)
    case None => None
    case Some(i) => Some(t[i].1)
  }

  /** `customCommands[name] = c`. */
  function Put(t: Table, name: string, c: Command): (r: Table)
    ensures (name, c) in r
    ensures |r| == if name in Names(t) then |t| else |t| + 1
  {
    match Find(t, name)
    case None => t + [(name, c)]
    case Some(i) =>
      assert t[i := (name, c)][i] == (name, c);
      t[i := (name, c)]
  }

  /** `delete customCommands[name]`. */
  function Remove(t: Table, name: string): (r: Table)
    ensures |r| == if name in Names(t) then |t| - 1 else |t|
    ensures forall e :: e in r ==> e in t
  {
    match Find(t, name)
    case None => t
    case Some(i) => t[..i] + t[i + 1..]
  }

  /** Reference definition of deletion: every entry except those named `name`, in order. */
  function Without(t: Table, name: string): Table {
    if |t| == 0 then []
    else if t[0].0 == name then Without(t[1..], name)
    else [t[0]] + Without(t[1..], name)
  }

  lemma FindAt(t: Table, name: string, i: nat)
    requires UniqueKeys(t) && i < |t| && t[i].0 == name
    ensures Find(t, name) == Some(i)
  {
    assert Names(t)[i] == name;
  }

  lemma FindFirst(u: Table, name: string, i: nat)
    requires i < |u| && u[i].0 == name
    requires forall j :: 0 <= j < i ==> u[j].0 != name
    ensures Find(u, name) == Some(i)
  {
    assert Names(u)[i] == name;
  }

  lemma FindNone(u: Table, name: string)
    requires forall j :: 0 <= j < |u| ==> u[j].0 != name
    ensures Find(u, name) == None
  {
    assert forall j :: 0 <= j < |u| ==> Names(u)[j] != name;
  }

  lemma NotInNames(t: Table, name: string)
    requires name !in Names(t)
    ensures forall j :: 0 <= j < |t| ==> t[j].0 != name
  {
    assert forall j :: 0 <= j < |t| ==> Names(t)[j] == t[j].0;
  }

  lemma PutSame(t: Table, k: string, c: Command)
    ensures Lookup(Put(t, k, c), k) == Some(c)
  {
    var u := Put(t, k, c);
    match Find(t, k)
    case None =>
      NotInNames(t, k);
      FindFirst(u, k, |t|);
    case Some(i) => FindFirst(u, k, i);
  }

  lemma PutOther(t: Table, k: string, c: Command, k': string)
    requires k' != k
    ensures Lookup(Put(t, k, c), k') == Lookup(t, k')
  {
    var u := Put(t, k, c);
    match Find(t, k')
    case None =>
      NotInNames(t, k');
      FindNone(u, k');
    case Some(j) => FindFirst(u, k', j);
  }

  /** After `customCommands[k] = c`, key `k` holds `c` and every other key holds what it held. */
  lemma LookupPut(t: Table, k: string, c: Command, k': string)
    ensures Lookup(Put(t, k, c), k') == if k' == k then Some(c) else Lookup(t, k')
  {
    if k' == k { PutSame(t, k, c); } else { PutOther(t, k, c, k'); }
  }

  /** Assigning an existing key keeps the order of the keys; a new key is appended. */
  lemma PutNames(t: Table, k: string, c: Command)
    ensures Names(Put(t, k, c)) == if k in Names(t) then Names(t) else Names(t) + [k]
  {
    var u := Put(t, k, c);
    match Find(t, k)
    case None =>
      assert Names(u) == Names(t) + [k];
    case Some(i) =>
      assert Names(u) == Names(t);
  }

  lemma PutUnique(t: Table, k: string, c: Command)
    requires UniqueKeys(t)
    ensures UniqueKeys(Put(t, k, c))
  {
    var u := Put(t, k, c);
    PutNames(t, k, c);
    forall i, j | 0 <= i < j < |u| ensures u[i].0 != u[j].0 {
      assert u[i].0 == Names(u)[i] && u[j].0 == Names(u)[j];
      if k !in Names(t) && j == |t| {
        assert u[i].0 == Names(t)[i];
      } else {
        assert Names(t)[i] == t[i].0 && Names(t)[j] == t[j].0;
      }
    }
  }

  lemma PutBounded(t: Table, k: string, c: Command)
    requires GifBounded(t) && 1 <= |c.gifs| <= MaxGifs
    ensures GifBounded(Put(t, k, c))
  {
  }

  lemma {:induction false} WithoutAbsent(t: Table, name: string)
    requires name !in Names(t)
    ensures Without(t, name) == t
  {
    if |t| > 0 {
      assert Names(t) == [t[0].0] + Names(t[1..]);
      WithoutAbsent(t[1..], name);
    }
  }

  /** With unique keys, `delete` drops exactly the entry named `k` and keeps every other entry in its order. */
  lemma {:induction false} RemoveIsWithout(t: Table, k: string)
    requires UniqueKeys(t)
    ensures Remove(t, k) == Without(t, k)
  {
    if |t| > 0 {
      assert Names(t) == [t[0].0] + Names(t[1..]);
      if t[0].0 == k {
        assert k !in Names(t[1..]);
        WithoutAbsent(t[1..], k);
        FindAt(t, k, 0);
      } else {
        RemoveIsWithout(t[1..], k);
        match Find(t[1..], k)
        case None =>
        case Some(i) =>
          assert Find(t, k) == Some(i + 1);
          assert t[..i + 1] + t[i + 2..] == [t[0]] + (t[1..][..i] + t[1..][i + 1..]);
      }
    }
  }

  lemma TailUnique(t: Table)
    requires UniqueKeys(t) && |t| > 0
    ensures UniqueKeys(t[1..])
    ensures Names(t) == [t[0].0] + Names(t[1..])
    ensures t[0].0 !in Names(t[1..])
  {
    forall i, j | 0 <= i < j < |t| - 1 ensures t[1..][i].0 != t[1..][j].0 {
      assert t[1..][i] == t[i + 1] && t[1..][j] == t[j + 1];
    }
    assert Names(t) == [t[0].0] + Names(t[1..]);
  }

  /** Looking a key up in a table with one more entry in front. */
  lemma LookupCons(e: Entry, w: Table, k: string)
    ensures Lookup([e] + w, k) == if e.0 == k then Some(e.1) else Lookup(w, k)
  {
    assert ([e] + w)[1..] == w;
  }

  lemma {:induction false} WithoutNames(t: Table, k: string)
    requires UniqueKeys(t)
    ensures UniqueKeys(Without(t, k))
    ensures |Without(t, k)| == if k in Names(t) then |t| - 1 else |t|
    ensures forall n :: n in Names(Without(t, k)) <==> n in Names(t) && n != k
  {
    if |t| > 0 {
      TailUnique(t);
      WithoutNames(t[1..], k);
      var w := Without(t[1..], k);
      if t[0].0 != k {
        assert Without(t, k) == [t[0]] + w;
        assert Names([t[0]] + w) == [t[0].0] + Names(w);
        assert forall j :: 0 <= j < |w| ==> w[j].0 == Names(w)[j];
      }
    }
  }

  lemma {:induction false} WithoutLookup(t: Table, k: string, k': string)
    requires UniqueKeys(t)
    ensures Lookup(Without(t, k), k') == if k' == k then None else Lookup(t, k')
  {
    if |t| > 0 {
      TailUnique(t);
      WithoutLookup(t[1..], k, k');
      WithoutNames(t[1..], k);
      assert t == [t[0]] + t[1..];
      LookupCons(t[0], t[1..], k');
      if t[0].0 != k {
        LookupCons(t[0], Without(t[1..], k), k');
      } else if k' == k {
        FindNone(t[1..], k) by {
          forall j | 0 <= j < |t[1..]| ensures t[1..][j].0 != k {
            assert Names(t[1..])[j] == t[1..][j].0;
          }
        }
      }
    }
  }

  /** After `delete customCommands[k]`, `k` is absent and every other key holds what it held. */
  lemma LookupRemove(t: Table, k: string, k': string)
    requires UniqueKeys(t)
    ensures Lookup(Remove(t, k), k') == if k' == k then None else Lookup(t, k')
    ensures UniqueKeys(Remove(t, k))
    ensures |Remove(t, k)| == if k in Names(t) then |t| - 1 else |t|
  {
    RemoveIsWithout(t, k);
    WithoutLookup(t, k, k');
    WithoutNames(t, k);
  }

  lemma RemoveBounded(t: Table, k: string)
    requires GifBounded(t)
    ensures GifBounded(Remove(t, k))
  {
    match Find(t, k)
    case None =>
    case Some(i) =>
      var u := Remove(t, k);
      forall j | 0 <= j < |u| ensures 1 <= |u[j].1.gifs| <= MaxGifs {
        if j < i { assert u[j] == t[j]; } else { assert u[j] == t[j + 1]; }
      }
  }
}
