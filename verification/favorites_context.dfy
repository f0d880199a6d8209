/** `context/FavoritesContext`: the favorites reducer (`SET_FAVORITES`,
    `TOGGLE_FAVORITE`), the `isFavorite` query, and the provider's two effects — the
    load from storage on mount and the save after every state change — as state
    transitions over an abstract storage slot. */
module FavoritesContext {
  import opened Wrappers
  import opened Types

  /** The reducer state: favorites in the order they were added, and whether the
      initial load from storage is still pending. */
  datatype State = State(favorites: seq<Product>, loading: bool)

  /** Empty favorites, load pending. */
  const InitialState: State := State([], true)

  datatype Action =
    | SetFavorites(payload: seq<Product>)
    | ToggleFavorite(item: Product)

  // ---------- queries over a favorites list ----------

  /** `favorites.some(item => item.id === id)`. */
  predicate HasId(favorites: seq<Product>, id: int) {
    exists i :: 0 <= i < |favorites| && favorites[i].id == id
  }

  /** No two favorites share an id. */
  predicate UniqueIds(favorites: seq<Product>) {
    forall i, j :: 0 <= i < j < |favorites| ==> favorites[i].id != favorites[j].id
  }

  /** a is obtained from b by deleting elements: the order of what remains is kept. */
  predicate IsSubsequence(a: seq<Product>, b: seq<Product>)
    decreases |b|
  {
    a == [] || (b != [] && ((a[0] == b[0] && IsSubsequence(a[1..], b[1..])) || IsSubsequence(a, b[1..])))
  }

  /** v sits at some position of s and no product before that position carries id. */
  predicate FirstWithId(s: seq<Product>, id: int, v: Product) {
    exists i :: 0 <= i < |s| && s[i] == v && !HasId(s[..i], id)
  }

  /** `favorites.find(item => item.id === id)`: the first product carrying id, if any. */
  function Find(favorites: seq<Product>, id: int): (r: Option<Product>)
    ensures r.None? <==> !HasId(favorites, id)
    ensures r.Some? ==> r.value.id == id && r.value in favorites
    ensures r.Some? ==> FirstWithId(favorites, id, r.value)
  {
    if favorites == [] then None
    else if favorites[0].id == id then
      assert favorites[..0] == [];
      Some(favorites[0])
    else
      var r := Find(favorites[1..], id);
      assert forall i :: 1 <= i < |favorites| ==> favorites[i] == favorites[1..][i - 1];
      if r.Some? then
        FirstWithIdCons(favorites[0], favorites[1..], id, r.value);
        assert favorites == [favorites[0]] + favorites[1..];
        r
      else r
  }

  /** A product that does not carry id, put in front, does not change which product
      is the first to carry it. */
  lemma FirstWithIdCons(x: Product, s: seq<Product>, id: int, v: Product)
    requires x.id != id && FirstWithId(s, id, v)
    ensures FirstWithId([x] + s, id, v)
  {
    var i :| 0 <= i < |s| && s[i] == v && !HasId(s[..i], id);
    var xs := [x] + s;
    assert xs[..i + 1] == [x] + s[..i];
    HasIdCons(x, s[..i], id);
    assert xs[i + 1] == v;
  }

  /** `favorites.filter(item => item.id !== id)`. */
  function RemoveId(favorites: seq<Product>, id: int): (r: seq<Product>)
    ensures |r| <= |favorites|
  {
    if favorites == [] then []
    else (if favorites[0].id == id then [] else [favorites[0]]) + RemoveId(favorites[1..], id)
  }

  lemma RemoveIdCons(x: Product, s: seq<Product>, id: int)
    ensures RemoveId([x] + s, id) == (if x.id == id then [] else [x]) + RemoveId(s, id)
  {
    assert ([x] + s)[0] == x;
    assert ([x] + s)[1..] == s;
  }

  lemma HasIdCons(x: Product, s: seq<Product>, id: int)
    ensures HasId([x] + s, id) <==> x.id == id || HasId(s, id)
  {
    var xs := [x] + s;
    if HasId(s, id) {
      var i :| 0 <= i < |s| && s[i].id == id;
      assert xs[i + 1] == s[i];
    }
    if HasId(xs, id) && x.id != id {
      var i :| 0 <= i < |xs| && xs[i].id == id;
      assert xs[0] == x;
      assert i >= 1;
      assert s[i - 1] == xs[i];
    }
  }

  /** The filter leaves no product carrying id. */
  lemma {:induction false} RemoveIdDropsId(favorites: seq<Product>, id: int)
    ensures !HasId(RemoveId(favorites, id), id)
    decreases |favorites|
  {
    if favorites != [] {
      var x := favorites[0];
      RemoveIdDropsId(favorites[1..], id);
      HasIdCons(x, RemoveId(favorites[1..], id), id);
    }
  }

  /** The filter keeps the order of what it keeps. */
  lemma {:induction false} RemoveIdKeepsOrder(favorites: seq<Product>, id: int)
    ensures IsSubsequence(RemoveId(favorites, id), favorites)
    decreases |favorites|
  {
    if favorites != [] {
      var x := favorites[0];
      var rest := RemoveId(favorites[1..], id);
      RemoveIdKeepsOrder(favorites[1..], id);
      if x.id != id {
        assert ([x] + rest)[1..] == rest;
      } else {
        assert RemoveId(favorites, id) == rest;
      }
    }
  }

  /** The filter keeps every product not carrying id, with its multiplicity. */
  lemma {:induction false} RemoveIdCounts(favorites: seq<Product>, id: int)
    ensures forall p :: multiset(RemoveId(favorites, id))[p] == if p.id == id then 0 else multiset(favorites)[p]
    decreases |favorites|
  {
    if favorites != [] {
      var x := favorites[0];
      RemoveIdCounts(favorites[1..], id);
      assert favorites == [x] + favorites[1..];
      assert multiset(favorites) == multiset{x} + multiset(favorites[1..]);
    }
  }

  /** A list without id passes through the filter unchanged. */
  lemma {:induction false} RemoveIdWithoutId(favorites: seq<Product>, id: int)
    requires !HasId(favorites, id)
    ensures RemoveId(favorites, id) == favorites
    decreases |favorites|
  {
    if favorites != [] {
      assert favorites == [favorites[0]] + favorites[1..];
      HasIdCons(favorites[0], favorites[1..], id);
      RemoveIdWithoutId(favorites[1..], id);
    }
  }

  // ---------- the reducer ----------

  /** `reducer(state, action)`. SET_FAVORITES replaces the favorites and ends
      loading; TOGGLE_FAVORITE removes every product carrying the item's id when one
      is present, and appends the item otherwise, leaving `loading` alone. */
  function Reducer(state: State, action: Action): (r: State)
    ensures action.SetFavorites? ==> r.favorites == action.payload && !r.loading
    ensures action.ToggleFavorite? ==> r.loading == state.loading
    ensures action.ToggleFavorite? ==>
              (HasId(r.favorites, action.item.id) <==> !HasId(state.favorites, action.item.id))
    ensures action.ToggleFavorite? ==>
              forall id :: id != action.item.id ==> (HasId(r.favorites, id) <==> HasId(state.favorites, id))
  {
    match action
    case SetFavorites(payload) =>
      state.(favorites := payload, loading := false)
    case ToggleFavorite(item) =>
      var updated :=
        if Find(state.favorites, item.id).Some? then RemoveId(state.favorites, item.id)
        else state.favorites + [item];
      ToggleKeepsOtherIds(state.favorites, item);
      state.(favorites := updated)
  }

  lemma ToggleKeepsOtherIds(favorites: seq<Product>, item: Product)
    ensures !HasId(RemoveId(favorites, item.id), item.id)
    ensures HasId(favorites, item.id) ==>
              forall id :: id != item.id ==> (HasId(RemoveId(favorites, item.id), id) <==> HasId(favorites, id))
    ensures !HasId(favorites, item.id) ==>
              forall id :: id != item.id ==> (HasId(favorites + [item], id) <==> HasId(favorites, id))
    ensures !HasId(favorites, item.id) ==> HasId(favorites + [item], item.id)
  {
    var r := RemoveId(favorites, item.id);
    RemoveIdDropsId(favorites, item.id);
    RemoveIdCounts(favorites, item.id);
    forall id | id != item.id
      ensures HasId(r, id) <==> HasId(favorites, id)
    {
      if HasId(r, id) {
        var i :| 0 <= i < |r| && r[i].id == id;
        assert r[i] in multiset(r);
      }
      if HasId(favorites, id) {
        var i :| 0 <= i < |favorites| && favorites[i].id == id;
        assert favorites[i] in multiset(favorites);
        assert favorites[i] in multiset(r);
      }
    }
    var s := favorites + [item];
    assert s[|favorites|] == item;
    assert forall i :: 0 <= i < |favorites| ==> s[i] == favorites[i];
  }

  /** `isFavorite(id)`: membership by id in the current favorites. */
  function IsFavorite(state: State, id: int): (b: bool)
    ensures b <==> Find(state.favorites, id).Some?
  {
    HasId(state.favorites, id)
  }

  // ---------- properties of TOGGLE_FAVORITE ----------

  /** Toggling an item whose id is absent appends it: the old favorites are an
      unchanged prefix and the item is the one new last element. */
  lemma ToggleAbsentAppends(state: State, item: Product)
    requires !HasId(state.favorites, item.id)
    ensures var r := Reducer(state, ToggleFavorite(item));
      && |r.favorites| == |state.favorites| + 1
      && r.favorites[..|state.favorites|] == state.favorites
      && r.favorites[|state.favorites|] == item
      && r.loading == state.loading
  {
    assert (state.favorites + [item])[..|state.favorites|] == state.favorites;
  }

  /** Toggling an item whose id is present drops every product with that id and
      keeps the rest in order; with unique ids exactly one product goes. */
  lemma TogglePresentRemoves(state: State, item: Product)
    requires HasId(state.favorites, item.id)
    ensures var r := Reducer(state, ToggleFavorite(item));
      && !HasId(r.favorites, item.id)
      && IsSubsequence(r.favorites, state.favorites)
      && (forall p: Product :: p.id != item.id ==> multiset(r.favorites)[p] == multiset(state.favorites)[p])
      && (UniqueIds(state.favorites) ==> |r.favorites| == |state.favorites| - 1)
      && r.loading == state.loading
  {
    var f := state.favorites;
    RemoveIdDropsId(f, item.id);
    RemoveIdKeepsOrder(f, item.id);
    RemoveIdCounts(f, item.id);
    if UniqueIds(f) {
      var i :| 0 <= i < |f| && f[i].id == item.id;
      RemoveUniqueId(f, i);
    }
  }

  /** With unique ids, no product before position i carries the id of position i. */
  lemma PrefixLacksId(f: seq<Product>, i: int)
    requires UniqueIds(f) && 0 <= i < |f|
    ensures !HasId(f[..i], f[i].id)
  {
    var before := f[..i];
    forall j | 0 <= j < |before|
      ensures before[j].id != f[i].id
    {
      assert before[j] == f[j];
    }
  }

  /** With unique ids, no product after position i carries the id of position i. */
  lemma SuffixLacksId(f: seq<Product>, i: int)
    requires UniqueIds(f) && 0 <= i < |f|
    ensures !HasId(f[i + 1..], f[i].id)
  {
    var after := f[i + 1..];
    forall j | 0 <= j < |after|
      ensures after[j].id != f[i].id
    {
      assert after[j] == f[i + 1 + j];
    }
  }

  /** When x is the only product with its id, removing that id removes exactly x. */
  lemma RemoveOnlyOccurrence(before: seq<Product>, x: Product, after: seq<Product>)
    requires !HasId(before, x.id) && !HasId(after, x.id)
    ensures RemoveId(before + ([x] + after), x.id) == before + after
  {
    calc {
      RemoveId(before + ([x] + after), x.id);
      { RemoveIdAppend(before, [x] + after, x.id); }
      RemoveId(before, x.id) + RemoveId([x] + after, x.id);
      { RemoveIdWithoutId(before, x.id); RemoveIdCons(x, after, x.id); }
      before + RemoveId(after, x.id);
      { RemoveIdWithoutId(after, x.id); }
      before + after;
    }
  }

  /** With unique ids, removing the id of the product at position i removes exactly
      that one product. */
  lemma RemoveUniqueId(f: seq<Product>, i: int)
    requires UniqueIds(f) && 0 <= i < |f|
    ensures RemoveId(f, f[i].id) == f[..i] + f[i + 1..]
  {
    PrefixLacksId(f, i);
    SuffixLacksId(f, i);
    SplitAround(f, i);
    RemoveOnlyOccurrence(f[..i], f[i], f[i + 1..]);
  }

  lemma SplitAround(f: seq<Product>, i: int)
    requires 0 <= i < |f|
    ensures f == f[..i] + ([f[i]] + f[i + 1..])
  {
  }

  /** Filtering distributes over concatenation. */
  lemma {:induction false} RemoveIdAppend(a: seq<Product>, b: seq<Product>, id: int)
    ensures RemoveId(a + b, id) == RemoveId(a, id) + RemoveId(b, id)
    decreases |a|
  {
    if a != [] {
      RemoveIdAppend(a[1..], b, id);
      assert a + b == [a[0]] + (a[1..] + b);
      RemoveIdCons(a[0], a[1..] + b, id);
      RemoveIdCons(a[0], a[1..], id);
      assert a == [a[0]] + a[1..];
    } else {
      assert a + b == b;
    }
  }

  /** TOGGLE_FAVORITE keeps the invariant that no two favorites share an id. */
  lemma ToggleKeepsIdsUnique(state: State, item: Product)
    requires UniqueIds(state.favorites)
    ensures UniqueIds(Reducer(state, ToggleFavorite(item)).favorites)
  {
    var f := state.favorites;
    var r := Reducer(state, ToggleFavorite(item)).favorites;
    if HasId(f, item.id) {
      RemoveIdKeepsOrder(f, item.id);
      SubsequenceKeepsIdsUnique(r, f);
    } else {
      forall i, j | 0 <= i < j < |r|
        ensures r[i].id != r[j].id
      {
        if j == |f| {
          assert r[i] == f[i];
        } else {
          assert r[i] == f[i] && r[j] == f[j];
        }
      }
    }
  }

  lemma {:induction false} SubsequenceMembers(a: seq<Product>, b: seq<Product>)
    requires IsSubsequence(a, b)
    ensures forall x :: x in a ==> x in b
    decreases |b|
  {
    if a != [] {
      if a[0] == b[0] && IsSubsequence(a[1..], b[1..]) {
        SubsequenceMembers(a[1..], b[1..]);
        assert a == [a[0]] + a[1..];
      } else {
        SubsequenceMembers(a, b[1..]);
      }
    }
  }

  lemma {:induction false} SubsequenceKeepsIdsUnique(a: seq<Product>, b: seq<Product>)
    requires IsSubsequence(a, b) && UniqueIds(b)
    ensures UniqueIds(a)
    decreases |b|
  {
    if a != [] {
      assert UniqueIds(b[1..]) by {
        forall i, j | 0 <= i < j < |b[1..]|
          ensures b[1..][i].id != b[1..][j].id
        {
          assert b[1..][i] == b[i + 1] && b[1..][j] == b[j + 1];
        }
      }
      if a[0] == b[0] && IsSubsequence(a[1..], b[1..]) {
        SubsequenceKeepsIdsUnique(a[1..], b[1..]);
        SubsequenceMembers(a[1..], b[1..]);
        forall i, j | 0 <= i < j < |a|
          ensures a[i].id != a[j].id
        {
          if i == 0 {
            assert a[j] == a[1..][j - 1];
            assert a[j] in b[1..];
            var k :| 0 <= k < |b[1..]| && b[1..][k] == a[j];
            assert b[k + 1] == a[j];
          } else {
            assert a[i] == a[1..][i - 1] && a[j] == a[1..][j - 1];
          }
        }
      } else {
        SubsequenceKeepsIdsUnique(a, b[1..]);
      }
    }
  }

  /** Round trip: from a state without the item's id, toggling the item twice
      restores the exact original state, and `isFavorite` flips on each toggle. */
  lemma ToggleTwiceRestores(state: State, item: Product)
    requires !HasId(state.favorites, item.id)
    ensures var once := Reducer(state, ToggleFavorite(item));
      && IsFavorite(once, item.id)
      && !IsFavorite(Reducer(once, ToggleFavorite(item)), item.id)
      && Reducer(once, ToggleFavorite(item)) == state
  {
    var f := state.favorites;
    var once := Reducer(state, ToggleFavorite(item));
    assert once.favorites == f + [item];
    RemoveIdAppend(f, [item], item.id);
    RemoveIdCons(item, [], item.id);
    assert [item] == [item] + [];
    RemoveIdWithoutId(f, item.id);
    assert RemoveId(once.favorites, item.id) == f;
  }

  /** Whatever the ids look like, toggling a present id twice drops every product
      carrying it and then appends the item once at the end. */
  lemma ToggleTwiceFromPresentAnyIds(state: State, item: Product)
    requires HasId(state.favorites, item.id)
    ensures Reducer(Reducer(state, ToggleFavorite(item)), ToggleFavorite(item)).favorites
              == RemoveId(state.favorites, item.id) + [item]
  {
    RemoveIdDropsId(state.favorites, item.id);
  }

  /** The round trip does NOT hold from the other side: when the id is present,
      toggling twice moves the (new) item to the end of the list. */
  lemma ToggleTwiceFromPresent(state: State, item: Product, i: int)
    requires UniqueIds(state.favorites)
    requires 0 <= i < |state.favorites| && state.favorites[i].id == item.id
    ensures Reducer(Reducer(state, ToggleFavorite(item)), ToggleFavorite(item)).favorites
              == state.favorites[..i] + state.favorites[i + 1..] + [item]
  {
    var f := state.favorites;
    assert HasId(f, item.id);
    RemoveUniqueId(f, i);
    var once := Reducer(state, ToggleFavorite(item));
    assert once.favorites == f[..i] + f[i + 1..];
    assert !HasId(once.favorites, item.id);
  }

  // ---------- storage, load and save ----------

  /** What `AsyncStorage.getItem` settled with: a rejection, or the stored text
      (None for `null`, the missing key). */
  datatype ReadResult = ReadFailed | ReadOk(stored: Option<string>)

  /** `JSON.stringify` and `JSON.parse` on product lists, left abstract; `parse`
      yields None where `JSON.parse` throws. */
  datatype Json = Json(stringify: seq<Product> -> string, parse: string -> Option<seq<Product>>)

  /** The load effect's dispatch: a failed read, a missing key, an empty string (which
      is falsy) or text that does not parse all load the empty list; text that parses
      to p loads p. */
  function LoadAction(read: ReadResult, json: Json): (a: Action)
    ensures a.SetFavorites?
    ensures read.ReadFailed? ==> a.payload == []
    ensures read.ReadOk? && (read.stored.None? || read.stored == Some("")) ==> a.payload == []
    ensures read.ReadOk? && read.stored.Some? && read.stored.value != "" ==>
              match json.parse(read.stored.value)
              case None => a.payload == []
              case Some(p) => a.payload == p
  {
    match read
    case ReadFailed => SetFavorites([])
    case ReadOk(stored) =>
      if stored.Some? && stored.value != "" then
        match json.parse(stored.value)
        case Some(parsed) => SetFavorites(parsed)
        case None => SetFavorites([])
      else SetFavorites([])
  }

  /** The save effect, run after every state change: the text it hands to
      `setItem`, or None while the load is still pending. */
  function SaveEffect(state: State, json: Json): (w: Option<string>)
    ensures w.Some? <==> !state.loading
    ensures w.Some? ==> w.value == json.stringify(state.favorites)
  {
    if !state.loading then Some(json.stringify(state.favorites)) else None
  }

  /** The mounted provider: the reducer state, the text in the storage slot, and the
      texts of every write issued so far (whether or not the write succeeded). */
  datatype Provider = Provider(state: State, slot: Option<string>, writes: seq<string>)

  /** Something the provider reacts to. `LoadCompletes` is the settling of the load
      effect's read (readOk false: `getItem` rejected); `Toggle` is a
      `toggleFavorite(item)` call. Each is followed by the save effect, whose write
      lands only when `writeOk` (a rejected `setItem` is only logged). */
  datatype Event =
    | LoadCompletes(readOk: bool, writeOk: bool)
    | Toggle(item: Product, writeOk: bool)

  /** A freshly mounted provider over a slot; the save effect's run on mount sees a
      pending load and writes nothing. */
  function Mount(slot: Option<string>): (r: Provider)
    ensures r.slot == slot && r.writes == [] && r.state.loading
    ensures forall id :: !IsFavorite(r.state, id)
  {
    Provider(InitialState, slot, [])
  }

  /** The initial state: nothing is a favorite yet, and because the load is pending
      the save effect's first run writes nothing. */
  lemma InitialStateSavesNothing(json: Json)
    ensures InitialState.loading && SaveEffect(InitialState, json).None?
    ensures forall id :: !IsFavorite(InitialState, id)
  {
  }

  /** One event: dispatch the action to the reducer, then run the save effect. */
  function Step(p: Provider, e: Event, json: Json): (r: Provider)
    ensures p.writes <= r.writes && |r.writes| <= |p.writes| + 1
    ensures |r.writes| == |p.writes| + 1 <==> !r.state.loading
    ensures e.LoadCompletes? ==> !r.state.loading
    ensures !p.state.loading ==> !r.state.loading
    ensures r.slot != p.slot ==> e.writeOk && |r.writes| > 0 && r.slot == Some(r.writes[|r.writes| - 1])
  {
    var action :=
      match e
      case LoadCompletes(readOk, _) => LoadAction(if readOk then ReadOk(p.slot) else ReadFailed, json)
      case Toggle(item, _) => ToggleFavorite(item);
    var state := Reducer(p.state, action);
    var w := SaveEffect(state, json);
    Provider(state,
             if w.Some? && e.writeOk then w else p.slot,
             p.writes + if w.Some? then [w.value] else [])
  }

  /** The events, one after another. */
  function Run(p: Provider, events: seq<Event>, json: Json): (r: Provider)
    ensures p.writes <= r.writes && |r.writes| <= |p.writes| + |events|
    ensures !p.state.loading ==> !r.state.loading
    ensures (exists k :: 0 <= k < |events| && events[k].LoadCompletes?) ==> !r.state.loading
    decreases |events|
  {
    if events == [] then p else Run(Step(p, events[0], json), events[1..], json)
  }

  // ---------- runs of the provider ----------

  /** The save gate: while the load is pending, toggles change only the in-memory
      favorites; no write is issued, the slot keeps its text, and loading stays true. */
  lemma {:induction false} NoWriteBeforeLoad(p: Provider, events: seq<Event>, json: Json)
    requires p.state.loading
    requires forall i :: 0 <= i < |events| ==> events[i].Toggle?
    ensures Run(p, events, json).slot == p.slot
    ensures Run(p, events, json).writes == p.writes
    ensures Run(p, events, json).state.loading
    decreases |events|
  {
    if events != [] {
      NoWriteBeforeLoad(Step(p, events[0], json), events[1..], json);
    }
  }

  /** Once the load has completed the provider never goes back to loading, and every
      later event issues exactly one write: the text of the favorites it leaves. */
  lemma {:induction false} ReadyStaysReady(p: Provider, events: seq<Event>, json: Json)
    requires !p.state.loading
    ensures !Run(p, events, json).state.loading
    ensures |Run(p, events, json).writes| == |p.writes| + |events|
    ensures events != [] ==>
              Run(p, events, json).writes[|p.writes| + |events| - 1] == json.stringify(Run(p, events, json).state.favorites)
    decreases |events|
  {
    if events != [] {
      var q := Step(p, events[0], json);
      assert q.writes == p.writes + [json.stringify(q.state.favorites)];
      ReadyStaysReady(q, events[1..], json);
    }
  }

  /** The load supersedes earlier toggles: whatever was toggled before it, the
      favorites after a successful read are exactly what the slot's text loads as. */
  lemma LoadSupersedesEarlyToggles(slot: Option<string>, toggles: seq<Event>, json: Json, writeOk: bool)
    requires forall i :: 0 <= i < |toggles| ==> toggles[i].Toggle?
    ensures var q := Step(Run(Mount(slot), toggles, json), LoadCompletes(true, writeOk), json);
      && !q.state.loading
      && q.state.favorites == LoadAction(ReadOk(slot), json).payload
  {
    NoWriteBeforeLoad(Mount(slot), toggles, json);
  }

  /** A malformed stored text loads as the empty list, and the write-back that
      follows the load replaces the malformed text with the empty list's text. */
  lemma MalformedStorageLoadsEmpty(text: string, json: Json)
    requires text != "" && json.parse(text).None?
    ensures var q := Step(Mount(Some(text)), LoadCompletes(true, true), json);
      && q.state == State([], false)
      && q.slot == Some(json.stringify([]))
  {
  }

  /** Persistence: after a toggle while ready, a fresh provider that loads from the
      same slot sees the toggled favorites (given that JSON round-trips them), so the
      item's favorite status is the flipped one. */
  lemma ToggleSurvivesReload(p: Provider, item: Product, json: Json)
    requires !p.state.loading
    requires json.parse(json.stringify(Reducer(p.state, ToggleFavorite(item)).favorites))
               == Some(Reducer(p.state, ToggleFavorite(item)).favorites)
    requires json.stringify(Reducer(p.state, ToggleFavorite(item)).favorites) != ""
    ensures var q := Step(p, Toggle(item, true), json);
      var reloaded := Step(Mount(q.slot), LoadCompletes(true, true), json);
      && reloaded.state.favorites == q.state.favorites
      && (IsFavorite(reloaded.state, item.id) <==> !IsFavorite(p.state, item.id))
  {
  }

  /** Start with empty storage: the load completes with no favorites; toggling the
      product with id 1 makes it a favorite, and toggling it again undoes that. */
  lemma EmptyStorageScenario(json: Json)
    ensures var item := Product(1, "Backpack", "Fits a laptop", "backpack.png");
      var ready := Step(Mount(None), LoadCompletes(true, true), json);
      var once := Step(ready, Toggle(item, true), json);
      var twice := Step(once, Toggle(item, true), json);
      && ready.state == State([], false)
      && IsFavorite(once.state, 1)
      && !IsFavorite(twice.state, 1)
      && twice.state == ready.state
  {
    var item := Product(1, "Backpack", "Fits a laptop", "backpack.png");
    ToggleTwiceRestores(State([], false), item);
  }
}
