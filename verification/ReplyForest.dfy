/** The reply forest of `web/timekeeper.js`: messages grouped under their parents, sorted, and rendered depth first. */
module ReplyForest {

  /** `created` and `updated` are the positions of the two time stamps in the collation order. */
  datatype Message = Message(id: nat, parent: nat, created: int, updated: int)

  datatype Card = Card(message: Message, depth: nat)

  ghost predicate DistinctIds(items: seq<Message>) {
    && (forall i :: 0 <= i < |items| ==> items[i].id > 0)
    && (forall i, j :: 0 <= i < j < |items| ==> items[i].id != items[j].id)
  }

  /** Message lists as the server delivers them: IDs are positive and distinct. */
  type Items = items: seq<Message> | DistinctIds(items) witness []

  lemma SameId(items: Items, a: Message, b: Message)
    requires a in items && b in items && a.id == b.id
    ensures a == b
  {
    var i :| 0 <= i < |items| && items[i] == a;
    var j :| 0 <= j < |items| && items[j] == b;
    assert i == j;
  }

  ghost predicate Known(items: seq<Message>, id: nat) {
    exists m :: m in items && m.id == id
  }

  /** A message without a parent among the items is a root. */
  ghost predicate IsRoot(items: seq<Message>, m: Message) {
    m.parent == 0 || !Known(items, m.parent)
  }

  // ---- Sorting -------------------------------------------------------------

  /** Children by creation, oldest first; roots by last update, newest first; then by ID. */
  datatype Order = Chronological | Newest

  predicate Before(o: Order, a: Message, b: Message) {
    match o
    case Chronological => a.created < b.created || (a.created == b.created && a.id <= b.id)
    case Newest => a.updated > b.updated || (a.updated == b.updated && a.id >= b.id)
  }

  ghost predicate IsSorted(o: Order, s: seq<Message>) {
    forall i, j :: 0 <= i < j < |s| ==> Before(o, s[i], s[j])
  }

  function Insert(o: Order, m: Message, s: seq<Message>): seq<Message> {
    if s == [] || Before(o, m, s[0]) then [m] + s else [s[0]] + Insert(o, m, s[1..])
  }

  function Sort(o: Order, s: seq<Message>): seq<Message> {
    if s == [] then [] else Insert(o, s[0], Sort(o, s[1..]))
  }

  lemma PrependSorted(o: Order, m: Message, s: seq<Message>)
    requires IsSorted(o, s) && forall x :: x in s ==> Before(o, m, x)
    ensures IsSorted(o, [m] + s)
  {
    forall i, j | 0 <= i < j < |[m] + s| ensures Before(o, ([m] + s)[i], ([m] + s)[j]) {
      assert ([m] + s)[j] == s[j - 1];
    }
  }

  lemma {:induction false} InsertSorted(o: Order, m: Message, s: seq<Message>)
    requires IsSorted(o, s)
    ensures IsSorted(o, Insert(o, m, s)) && multiset(Insert(o, m, s)) == multiset(s) + multiset{m}
    decreases |s|
  {
    if s == [] || Before(o, m, s[0]) {
      PrependSorted(o, m, s);
    } else {
      InsertSorted(o, m, s[1..]);
      var rest := Insert(o, m, s[1..]);
      assert s == [s[0]] + s[1..];
      forall x | x in rest ensures Before(o, s[0], x) {
        assert x in multiset(rest);
        assert x in multiset(s[1..]) || x == m;
      }
      PrependSorted(o, s[0], rest);
    }
  }

  lemma {:induction false} SortSorted(o: Order, s: seq<Message>)
    ensures IsSorted(o, Sort(o, s)) && multiset(Sort(o, s)) == multiset(s)
    decreases |s|
  {
    if s != [] {
      SortSorted(o, s[1..]);
      InsertSorted(o, s[0], Sort(o, s[1..]));
      assert s == [s[0]] + s[1..];
    }
  }

  // ---- Grouping ------------------------------------------------------------

  ghost function RepliesTo(items: seq<Message>, all: seq<Message>, id: nat): seq<Message> {
    if items == [] then []
    else
      var init, m := items[..|items| - 1], items[|items| - 1];
      RepliesTo(init, all, id) + if !IsRoot(all, m) && m.parent == id then [m] else []
  }

  ghost function RootsOf(items: seq<Message>, all: seq<Message>): seq<Message> {
    if items == [] then []
    else
      var init, m := items[..|items| - 1], items[|items| - 1];
      RootsOf(init, all) + if IsRoot(all, m) then [m] else []
  }

  function ListFor(children: map<nat, seq<Message>>, id: nat): seq<Message> {
    if id in children then children[id] else []
  }

  /** The map and the list hold the groups of these items. */
  ghost predicate IsGrouped(children: map<nat, seq<Message>>, roots: seq<Message>, items: seq<Message>, all: seq<Message>) {
    && roots == RootsOf(items, all)
    && forall id: nat :: ListFor(children, id) == RepliesTo(items, all, id)
  }

  lemma RepliesExtend(items: seq<Message>, all: seq<Message>, m: Message, id: nat)
    ensures RepliesTo(items + [m], all, id) == RepliesTo(items, all, id) + if !IsRoot(all, m) && m.parent == id then [m] else []
    ensures RootsOf(items + [m], all) == RootsOf(items, all) + if IsRoot(all, m) then [m] else []
  {
    assert (items + [m])[..|items|] == items;
  }

  lemma GroupReply(children: map<nat, seq<Message>>, roots: seq<Message>, items: seq<Message>, all: seq<Message>, m: Message)
    requires IsGrouped(children, roots, items, all) && !IsRoot(all, m)
    ensures IsGrouped(children[m.parent := ListFor(children, m.parent) + [m]], roots, items + [m], all)
  {
    var children' := children[m.parent := ListFor(children, m.parent) + [m]];
    RepliesExtend(items, all, m, 0);
    forall id: nat ensures ListFor(children', id) == RepliesTo(items + [m], all, id) {
      RepliesExtend(items, all, m, id);
      assert ListFor(children, id) == RepliesTo(items, all, id);
    }
  }

  lemma GroupRoot(children: map<nat, seq<Message>>, roots: seq<Message>, items: seq<Message>, all: seq<Message>, m: Message)
    requires IsGrouped(children, roots, items, all) && IsRoot(all, m)
    ensures IsGrouped(children, roots + [m], items + [m], all)
  {
    RepliesExtend(items, all, m, 0);
    forall id: nat ensures ListFor(children, id) == RepliesTo(items + [m], all, id) {
      RepliesExtend(items, all, m, id);
      assert ListFor(children, id) == RepliesTo(items, all, id);
    }
  }

  /** The grouping loop of `renderMessages`. */
  method Group(items: seq<Message>) returns (children: map<nat, seq<Message>>, roots: seq<Message>)
    ensures IsGrouped(children, roots, items, items)
  {
    var known: set<nat> := set m | m in items :: m.id;
    assert forall id :: id in known <==> Known(items, id);
    children, roots := map[], [];
    var k := 0;
    while k < |items|
      invariant 0 <= k <= |items|
      invariant IsGrouped(children, roots, items[..k], items)
    {
      var m := items[k];
      assert items[..k + 1] == items[..k] + [m];
      if m.parent != 0 && m.parent in known {
        GroupReply(children, roots, items[..k], items, m);
        children := children[m.parent := ListFor(children, m.parent) + [m]];
      } else {
        GroupRoot(children, roots, items[..k], items, m);
        roots := roots + [m];
      }
      k := k + 1;
    }
    assert items[..|items|] == items;
  }

  ghost predicate IsReply(items: seq<Message>, m: Message, p: Message) {
    m in items && !IsRoot(items, m) && m.parent == p.id
  }

  lemma {:induction false} RepliesAre(items: seq<Message>, all: seq<Message>, id: nat)
    requires forall i, j :: 0 <= i < j < |items| ==> items[i].id != items[j].id
    ensures forall m :: m in RepliesTo(items, all, id) <==> m in items && !IsRoot(all, m) && m.parent == id
    ensures forall i, j :: 0 <= i < j < |RepliesTo(items, all, id)| ==> RepliesTo(items, all, id)[i] != RepliesTo(items, all, id)[j]
    decreases |items|
  {
    if items != [] {
      var init, m := items[..|items| - 1], items[|items| - 1];
      RepliesAre(init, all, id);
      assert items == init + [m];
      assert m !in init by {
        assert forall i :: 0 <= i < |init| ==> init[i] == items[i];
      }
    }
  }

  lemma {:induction false} RootsAre(items: seq<Message>, all: seq<Message>)
    requires forall i, j :: 0 <= i < j < |items| ==> items[i].id != items[j].id
    ensures forall m :: m in RootsOf(items, all) <==> m in items && IsRoot(all, m)
    ensures forall i, j :: 0 <= i < j < |RootsOf(items, all)| ==> RootsOf(items, all)[i] != RootsOf(items, all)[j]
    decreases |items|
  {
    if items != [] {
      var init, m := items[..|items| - 1], items[|items| - 1];
      RootsAre(init, all);
      assert items == init + [m];
      assert m !in init by {
        assert forall i :: 0 <= i < |init| ==> init[i] == items[i];
      }
    }
  }

  ghost predicate NoRepeats(s: seq<Message>) {
    forall i, j :: 0 <= i < j < |s| ==> s[i] != s[j]
  }

  ghost function Children(items: seq<Message>, p: Message): seq<Message> {
    Sort(Chronological, RepliesTo(items, items, p.id))
  }

  ghost function Roots(items: seq<Message>): seq<Message> {
    Sort(Newest, RootsOf(items, items))
  }

  lemma {:induction false} SameMultisetNoRepeats(s: seq<Message>, t: seq<Message>)
    requires multiset(s) == multiset(t) && NoRepeats(s)
    ensures NoRepeats(t) && forall m :: m in t <==> m in s
  {
    forall m ensures m in t <==> m in s {
      assert m in multiset(t) <==> m in multiset(s);
    }
    forall m | m in s ensures multiset(s)[m] == 1 {
      CountOnce(s, m);
    }
    forall i, j | 0 <= i < j < |t| ensures t[i] != t[j] {
      CountTwice(t, i, j);
      assert t[i] in s;
    }
  }

  lemma CountTwice(t: seq<Message>, i: nat, j: nat)
    requires i < j < |t|
    ensures t[i] == t[j] ==> multiset(t)[t[i]] >= 2
  {
    assert t == t[..i] + [t[i]] + t[i + 1..j] + [t[j]] + t[j + 1..];
  }

  lemma {:induction false} CountOnce(s: seq<Message>, m: Message)
    requires NoRepeats(s)
    ensures multiset(s)[m] == if m in s then 1 else 0
    decreases |s|
  {
    if s != [] {
      CountOnce(s[1..], m);
      assert s == [s[0]] + s[1..];
    }
  }

  lemma ChildrenAre(items: Items, p: Message)
    ensures forall m :: m in Children(items, p) <==> IsReply(items, m, p)
    ensures NoRepeats(Children(items, p)) && IsSorted(Chronological, Children(items, p))
  {
    RepliesAre(items, items, p.id);
    SortSorted(Chronological, RepliesTo(items, items, p.id));
    SameMultisetNoRepeats(RepliesTo(items, items, p.id), Children(items, p));
  }

  lemma RootsSorted(items: Items)
    ensures forall m :: m in Roots(items) <==> m in items && IsRoot(items, m)
    ensures NoRepeats(Roots(items)) && IsSorted(Newest, Roots(items))
  {
    RootsAre(items, items);
    SortSorted(Newest, RootsOf(items, items));
    SameMultisetNoRepeats(RootsOf(items, items), Roots(items));
  }

  // ---- Chains of replies ---------------------------------------------------

  /** A root followed by a reply, a reply to that reply, and so on. */
  ghost predicate Chain(items: seq<Message>, path: seq<Message>) {
    && path != [] && path[0] in items && IsRoot(items, path[0])
    && forall i :: 0 < i < |path| ==> IsReply(items, path[i], path[i - 1])
  }

  function Last(path: seq<Message>): Message
    requires path != []
  {
    path[|path| - 1]
  }

  lemma ChainInit(items: seq<Message>, path: seq<Message>)
    requires Chain(items, path) && |path| > 1
    ensures Chain(items, path[..|path| - 1]) && IsReply(items, Last(path), Last(path[..|path| - 1]))
  {}

  lemma ChainIn(items: seq<Message>, path: seq<Message>)
    requires Chain(items, path)
    ensures forall i :: 0 <= i < |path| ==> path[i] in items
  {
    forall i | 0 < i < |path| ensures path[i] in items {
      assert IsReply(items, path[i], path[i - 1]);
    }
  }

  /** A message has only one chain to it. */
  lemma {:induction false} ChainUnique(items: Items, p: seq<Message>, q: seq<Message>)
    requires Chain(items, p) && Chain(items, q) && Last(p) == Last(q)
    ensures p == q
    decreases |p|
  {
    if |p| > 1 {
      ChainInit(items, p);
    }
    if |q| > 1 {
      ChainInit(items, q);
    }
    assert IsRoot(items, Last(p)) <==> |p| == 1;
    assert IsRoot(items, Last(q)) <==> |q| == 1;
    if |p| > 1 {
      var p', q' := p[..|p| - 1], q[..|q| - 1];
      ChainIn(items, p);
      ChainIn(items, q);
      SameId(items, Last(p'), Last(q'));
      ChainUnique(items, p', q');
      assert p == p' + [Last(p)] && q == q' + [Last(q)];
    }
  }

  ghost predicate IsPath(items: seq<Message>, path: seq<Message>) {
    path == [] || Chain(items, path)
  }

  /** `m` may come next: a root at the start, afterwards a reply to the last message. */
  ghost predicate Follows(items: seq<Message>, path: seq<Message>, m: Message) {
    if path == [] then m in items && IsRoot(items, m) else IsReply(items, m, Last(path))
  }

  /** What follows a chain extends it, and was not on it. */
  lemma Extended(items: Items, path: seq<Message>, c: Message)
    requires IsPath(items, path) && Follows(items, path, c)
    ensures Chain(items, path + [c]) && c !in path
    ensures |Left(items, path + [c])| < |Left(items, path)|
  {
    if c in path {
      var i :| 0 <= i < |path| && path[i] == c;
      ChainUnique(items, path[..i + 1], path + [c]);
    }
    assert Left(items, path + [c]) == Left(items, path) - {c};
  }

  lemma DifferentEnds(items: Items, p: seq<Message>, q: seq<Message>)
    requires Chain(items, p) && Chain(items, q) && p != q
    ensures Last(p) != Last(q)
  {
    if Last(p) == Last(q) {
      ChainUnique(items, p, q);
    }
  }

  /** The messages not yet on the path. */
  ghost function Left(items: seq<Message>, path: seq<Message>): set<Message> {
    set m | m in items && m !in path
  }

  // ---- Rendering -----------------------------------------------------------

  function OrderAt(path: seq<Message>): Order {
    if path == [] then Newest else Chronological
  }

  /** `s` lists what follows a path, each message once, in the order in which it is rendered. */
  ghost predicate IsListing(items: Items, path: seq<Message>, s: seq<Message>) {
    && (forall m :: m in s <==> Follows(items, path, m))
    && NoRepeats(s) && IsSorted(OrderAt(path), s)
  }

  /** What the grouping loop and the sort produce. */
  ghost function Sorted(items: Items, path: seq<Message>): seq<Message> {
    if path == [] then Roots(items) else Children(items, Last(path))
  }

  lemma SortedIsListing(items: Items, path: seq<Message>)
    ensures IsListing(items, path, Sorted(items, path))
  {
    if path == [] {
      RootsSorted(items);
    } else {
      ChildrenAre(items, Last(path));
    }
  }

  /** The messages that follow a path, in order. */
  ghost function Following(items: Items, path: seq<Message>): seq<Message> {
    SortedIsListing(items, path);
    var s :| IsListing(items, path, s);
    s
  }

  lemma FollowingAre(items: Items, path: seq<Message>)
    ensures IsListing(items, path, Following(items, path))
  {
    SortedIsListing(items, path);
  }

  /** There is only one way to list them, so this is what the program's sort yields. */
  lemma FollowingIsSorted(items: Items, path: seq<Message>)
    ensures Following(items, path) == Sorted(items, path)
  {
    FollowingAre(items, path);
    SortedIsListing(items, path);
    ListedOnce(items, OrderAt(path), Following(items, path), Sorted(items, path));
  }

  lemma {:induction false} ListedOnce(items: Items, o: Order, s: seq<Message>, t: seq<Message>)
    requires NoRepeats(s) && NoRepeats(t) && IsSorted(o, s) && IsSorted(o, t)
    requires forall m :: m in s <==> m in t
    requires forall m :: m in s ==> m in items
    ensures s == t
    decreases |s|
  {
    EmptyTogether(s, t);
    if s != [] {
      assert s[0] in t && t[0] in s;
      FirstOfSorted(o, s, t[0]);
      FirstOfSorted(o, t, s[0]);
      SameId(items, s[0], t[0]);
      assert forall m :: m in s <==> m == s[0] || m in s[1..];
      assert forall m :: m in t <==> m == t[0] || m in t[1..];
      ListedOnce(items, o, s[1..], t[1..]);
    }
  }

  lemma EmptyTogether(s: seq<Message>, t: seq<Message>)
    requires forall m :: m in s <==> m in t
    ensures s == [] <==> t == []
  {
    if s != [] {
      assert s[0] in t;
    }
    if t != [] {
      assert t[0] in s;
    }
  }

  lemma FirstOfSorted(o: Order, s: seq<Message>, m: Message)
    requires IsSorted(o, s) && m in s
    ensures Before(o, s[0], m)
  {
    var i :| 0 <= i < |s| && s[i] == m;
    assert i > 0 ==> Before(o, s[0], s[i]);
  }

  /** `renderMessageCard` for the end of a chain: its card, then the cards of the replies in order. */
  ghost function CardsFrom(items: Items, path: seq<Message>): seq<Card>
    requires Chain(items, path)
    decreases |Left(items, path)|, 1, 0
  {
    [Card(Last(path), |path| - 1)] + CardsOf(items, path, 0)
  }

  /** The cards of the messages that follow a path, from the `n`th on. */
  ghost function CardsOf(items: Items, path: seq<Message>, n: nat): seq<Card>
    requires IsPath(items, path) && n <= |Following(items, path)|
    decreases |Left(items, path)|, 0, |Following(items, path)| - n
  {
    if n == |Following(items, path)| then []
    else
      Stepped(items, path, n);
      CardsFrom(items, Step(items, path, n)) + CardsOf(items, path, n + 1)
  }

  /** The path with its `n`th follower. */
  ghost function Step(items: Items, path: seq<Message>, n: nat): seq<Message>
    requires n < |Following(items, path)|
  {
    path + [Following(items, path)[n]]
  }

  lemma Stepped(items: Items, path: seq<Message>, n: nat)
    requires IsPath(items, path) && n < |Following(items, path)|
    ensures Chain(items, Step(items, path, n)) && |Left(items, Step(items, path, n))| < |Left(items, path)|
  {
    FollowingAre(items, path);
    assert Following(items, path)[n] in Following(items, path);
    Extended(items, path, Following(items, path)[n]);
  }

  /** `renderMessages`; that it is a function at all says that the recursion ends, cycles or not. */
  ghost function Render(items: Items): seq<Card> {
    CardsOf(items, [], 0)
  }

  // ---- The recursion over the map ------------------------------------------

  /** The map that is left after sorting: every list in chronological order. */
  ghost predicate IsSortedMap(items: Items, children: map<nat, seq<Message>>) {
    forall id: nat :: ListFor(children, id) == Sort(Chronological, RepliesTo(items, items, id))
  }

  /** `children.forEach(list => list.sort(chronological))` */
  function SortAll(children: map<nat, seq<Message>>): map<nat, seq<Message>> {
    map id | id in children :: Sort(Chronological, children[id])
  }

  lemma SortAllIsSorted(items: Items, children: map<nat, seq<Message>>, roots: seq<Message>)
    requires IsGrouped(children, roots, items, items)
    ensures IsSortedMap(items, SortAll(children))
  {
    forall id: nat ensures ListFor(SortAll(children), id) == Sort(Chronological, RepliesTo(items, items, id)) {
      assert ListFor(children, id) == RepliesTo(items, items, id);
    }
  }

  lemma KidsAreFollowing(items: Items, children: map<nat, seq<Message>>, path: seq<Message>)
    requires IsSortedMap(items, children) && Chain(items, path)
    ensures ListFor(children, Last(path).id) == Following(items, path)
  {
    FollowingIsSorted(items, path);
  }

  lemma JoinCards(a: seq<Card>, b: seq<Card>, c: seq<Card>)
    ensures a + (b + c) == (a + b) + c
  {}

  /** The cards of one more follower. */
  lemma NextCards(items: Items, path: seq<Message>, i: nat, below: seq<Card>, more: seq<Card>)
    requires IsPath(items, path) && i < |Following(items, path)| && Chain(items, Step(items, path, i))
    requires CardsOf(items, path, 0) == below + CardsOf(items, path, i) && more == CardsFrom(items, Step(items, path, i))
    ensures CardsOf(items, path, 0) == (below + more) + CardsOf(items, path, i + 1)
  {
    JoinCards(below, more, CardsOf(items, path, i + 1));
  }

  /** `renderMessageCard`: the card of a message, then, recursively, those of the replies the map lists for it. */
  method RenderCard(children: map<nat, seq<Message>>, m: Message, depth: nat, ghost items: Items, ghost path: seq<Message>)
    returns (cards: seq<Card>)
    requires IsSortedMap(items, children) && Chain(items, path) && m == Last(path) && depth == |path| - 1
    ensures cards == CardsFrom(items, path)
    decreases |Left(items, path)|
  {
    var kids := ListFor(children, m.id);
    KidsAreFollowing(items, children, path);
    var below: seq<Card> := [];
    var i := 0;
    while i < |kids|
      invariant 0 <= i <= |kids|
      invariant CardsOf(items, path, 0) == below + CardsOf(items, path, i)
    {
      Stepped(items, path, i);
      var more := RenderCard(children, kids[i], depth + 1, items, Step(items, path, i));
      NextCards(items, path, i, below, more);
      below := below + more;
      i := i + 1;
    }
    cards := [Card(m, depth)] + below;
  }

  /** `renderMessages`: groups, sorts and renders every root. */
  method RenderMessages(items: Items) returns (cards: seq<Card>)
    ensures cards == Render(items) && WellLaidOut(items, cards)
  {
    ForestIsWellLaidOut(items);
    var children, roots := Group(items);
    SortAllIsSorted(items, children, roots);
    roots, children := Sort(Newest, roots), SortAll(children);
    FollowingIsSorted(items, []);
    cards := [];
    var i := 0;
    while i < |roots|
      invariant 0 <= i <= |roots|
      invariant Render(items) == cards + CardsOf(items, [], i)
    {
      Stepped(items, [], i);
      var more := RenderCard(children, roots[i], 0, items, Step(items, [], i));
      NextCards(items, [], i, cards, more);
      cards := cards + more;
      i := i + 1;
    }
  }

  // ---- What is rendered ----------------------------------------------------

  /** Every card stands for a chain, and is as deep as the chain is long. */
  lemma {:induction false} CardsHaveChains(items: Items, path: seq<Message>, k: nat) returns (longer: seq<Message>)
    requires Chain(items, path) && k < |CardsFrom(items, path)|
    ensures Chain(items, longer) && path <= longer && (k == 0 <==> path == longer)
    ensures CardsFrom(items, path)[k] == Card(Last(longer), |longer| - 1)
    decreases |Left(items, path)|, 1, 0
  {
    if k == 0 {
      longer := path;
    } else {
      var l;
      longer, l := KidsHaveChains(items, path, 0, k - 1);
    }
  }

  /** A card among those of the followers stands for a chain through one of them, the `l`th. */
  lemma {:induction false} KidsHaveChains(items: Items, path: seq<Message>, n: nat, k: nat)
    returns (longer: seq<Message>, l: nat)
    requires IsPath(items, path) && n <= |Following(items, path)| && k < |CardsOf(items, path, n)|
    ensures n <= l < |Following(items, path)| && Chain(items, longer) && Step(items, path, l) <= longer
    ensures CardsOf(items, path, n)[k] == Card(Last(longer), |longer| - 1)
    decreases |Left(items, path)|, 0, |Following(items, path)| - n
  {
    Stepped(items, path, n);
    var first := CardsFrom(items, Step(items, path, n));
    assert CardsOf(items, path, n) == first + CardsOf(items, path, n + 1);
    if k < |first| {
      longer := CardsHaveChains(items, Step(items, path, n), k);
      l := n;
    } else {
      longer, l := KidsHaveChains(items, path, n + 1, k - |first|);
    }
  }

  /** Every chain has its card. */
  lemma {:induction false} ChainsHaveCards(items: Items, path: seq<Message>, longer: seq<Message>) returns (k: nat)
    requires Chain(items, path) && Chain(items, longer) && path <= longer
    ensures k < |CardsFrom(items, path)| && CardsFrom(items, path)[k] == Card(Last(longer), |longer| - 1)
    decreases |longer| - |path|, 1, 0
  {
    if path == longer {
      k := 0;
    } else {
      var l := NextStep(items, path, longer);
      k := ChainsHaveKidCards(items, path, 0, l, longer);
      k := k + 1;
    }
  }

  /** A longer chain goes on with one of the followers. */
  lemma NextStep(items: Items, path: seq<Message>, longer: seq<Message>) returns (l: nat)
    requires IsPath(items, path) && Chain(items, longer) && path < longer
    ensures l < |Following(items, path)| && Step(items, path, l) <= longer
  {
    var m := longer[|path|];
    assert Follows(items, path, m) by {
      if path != [] {
        assert IsReply(items, longer[|path|], longer[|path| - 1]);
      }
    }
    FollowingAre(items, path);
    l :| 0 <= l < |Following(items, path)| && Following(items, path)[l] == m;
  }

  lemma {:induction false} ChainsHaveKidCards(items: Items, path: seq<Message>, n: nat, l: nat, longer: seq<Message>)
    returns (k: nat)
    requires IsPath(items, path) && Chain(items, longer) && n <= l < |Following(items, path)|
    requires Step(items, path, l) <= longer
    ensures k < |CardsOf(items, path, n)| && CardsOf(items, path, n)[k] == Card(Last(longer), |longer| - 1)
    decreases |longer| - |path|, 0, l - n
  {
    Stepped(items, path, n);
    if l == n {
      k := ChainsHaveCards(items, Step(items, path, n), longer);
    } else {
      k := ChainsHaveKidCards(items, path, n + 1, l, longer);
      k := k + |CardsFrom(items, Step(items, path, n))|;
    }
  }

  /** Chains through different followers end differently. */
  lemma PartedChains(items: Items, path: seq<Message>, n: nat, l: nat, p: seq<Message>, q: seq<Message>)
    requires n < l < |Following(items, path)|
    requires Chain(items, p) && Chain(items, q) && Step(items, path, n) <= p && Step(items, path, l) <= q
    ensures Last(p) != Last(q)
  {
    FollowingAre(items, path);
    assert p[|path|] == Step(items, path, n)[|path|] && q[|path|] == Step(items, path, l)[|path|];
    DifferentEnds(items, p, q);
  }

  /** No message has two cards. */
  lemma {:induction false} CardsDiffer(items: Items, path: seq<Message>, i: nat, j: nat)
    requires Chain(items, path) && i < j < |CardsFrom(items, path)|
    ensures CardsFrom(items, path)[i].message != CardsFrom(items, path)[j].message
    decreases |Left(items, path)|, 1, 0
  {
    if i == 0 {
      var q := CardsHaveChains(items, path, j);
      DifferentEnds(items, path, q);
    } else {
      KidCardsDiffer(items, path, 0, i - 1, j - 1);
    }
  }

  lemma {:induction false} KidCardsDiffer(items: Items, path: seq<Message>, n: nat, i: nat, j: nat)
    requires IsPath(items, path) && n <= |Following(items, path)| && i < j < |CardsOf(items, path, n)|
    ensures CardsOf(items, path, n)[i].message != CardsOf(items, path, n)[j].message
    decreases |Left(items, path)|, 0, |Following(items, path)| - n
  {
    Stepped(items, path, n);
    var first := CardsFrom(items, Step(items, path, n));
    assert CardsOf(items, path, n) == first + CardsOf(items, path, n + 1);
    if j < |first| {
      CardsDiffer(items, Step(items, path, n), i, j);
    } else if i >= |first| {
      KidCardsDiffer(items, path, n + 1, i - |first|, j - |first|);
    } else {
      var p := CardsHaveChains(items, Step(items, path, n), i);
      var q, l := KidsHaveChains(items, path, n + 1, j - |first|);
      PartedChains(items, path, n, l, p, q);
    }
  }

  predicate IsParentCard(p: Card, c: Card) {
    c.message.parent == p.message.id && c.depth == p.depth + 1
  }

  /** Every card but the first comes after its parent's, one level deeper. */
  lemma {:induction false} ParentFirst(items: Items, path: seq<Message>, k: nat) returns (i: nat)
    requires Chain(items, path) && 0 < k < |CardsFrom(items, path)|
    ensures i < k && IsParentCard(CardsFrom(items, path)[i], CardsFrom(items, path)[k])
    decreases |Left(items, path)|, 1, 0
  {
    var j := KidParentFirst(items, path, 0, k - 1);
    i := j + 1;
  }

  lemma {:induction false} KidParentFirst(items: Items, path: seq<Message>, n: nat, k: nat) returns (i: int)
    requires IsPath(items, path) && n <= |Following(items, path)| && k < |CardsOf(items, path, n)|
    ensures -1 <= i < k
    ensures if i == -1 then Follows(items, path, CardsOf(items, path, n)[k].message) && CardsOf(items, path, n)[k].depth == |path|
            else IsParentCard(CardsOf(items, path, n)[i], CardsOf(items, path, n)[k])
    decreases |Left(items, path)|, 0, |Following(items, path)| - n
  {
    Stepped(items, path, n);
    var first := CardsFrom(items, Step(items, path, n));
    assert CardsOf(items, path, n) == first + CardsOf(items, path, n + 1);
    if k == 0 {
      FollowingAre(items, path);
      i := -1;
    } else if k < |first| {
      i := ParentFirst(items, Step(items, path, n), k);
    } else {
      i := KidParentFirst(items, path, n + 1, k - |first|);
      i := if i == -1 then -1 else i + |first|;
    }
  }

  /** The chain of a message found below a path leads through that path. */
  lemma ThroughChain(items: Items, path: seq<Message>, r: seq<Message>, a: Message, i: nat)
    requires Chain(items, path) && Chain(items, r + [a])
    requires i < |CardsFrom(items, path)| && CardsFrom(items, path)[i].message == a
    ensures path <= r + [a]
  {
    var p := CardsHaveChains(items, path, i);
    ChainUnique(items, p, r + [a]);
  }

  lemma ThroughKids(items: Items, path: seq<Message>, n: nat, r: seq<Message>, b: Message, j: nat) returns (l: nat)
    requires IsPath(items, path) && n <= |Following(items, path)| && Chain(items, r + [b])
    requires j < |CardsOf(items, path, n)| && CardsOf(items, path, n)[j].message == b
    ensures n <= l < |Following(items, path)| && Step(items, path, l) <= r + [b]
  {
    var q;
    q, l := KidsHaveChains(items, path, n, j);
    ChainUnique(items, q, r + [b]);
  }

  /** Two different chains one step beyond `r`, both through the same follower of `path`, part beyond it. */
  lemma PartBeyond(path: seq<Message>, kid: Message, r: seq<Message>, a: Message, b: Message)
    requires path <= r && path + [kid] <= r + [a] && path + [kid] <= r + [b] && a != b
    ensures path + [kid] <= r
  {
    assert (r + [a])[|path|] == kid == (r + [b])[|path|];
  }

  lemma BothBelow(items: Items, path: seq<Message>, kid: Message, r: seq<Message>, a: Message, b: Message, i: nat, j: nat)
    requires Chain(items, path + [kid]) && path <= r && i < j < |CardsFrom(items, path + [kid])|
    requires CardsFrom(items, path + [kid])[i].message == a && CardsFrom(items, path + [kid])[j].message == b
    requires Chain(items, r + [a]) && Chain(items, r + [b])
    ensures path + [kid] <= r
  {
    ThroughChain(items, path + [kid], r, a, i);
    ThroughChain(items, path + [kid], r, b, j);
    CardsDiffer(items, path + [kid], i, j);
    PartBeyond(path, kid, r, a, b);
  }

  /** Roots stand newest first by their last update, replies in the order of their creation; the ID decides between equals. */
  predicate Precedes(isRoot: bool, a: Message, b: Message) {
    if isRoot then a.updated > b.updated || (a.updated == b.updated && a.id > b.id)
    else a.created < b.created || (a.created == b.created && a.id < b.id)
  }

  /** Through different followers, they part right there, in the order of the followers. */
  lemma PartHere(items: Items, path: seq<Message>, n: nat, l: nat, r: seq<Message>, a: Message, b: Message)
    requires path <= r && n < l < |Following(items, path)|
    requires Step(items, path, n) <= r + [a] && Step(items, path, l) <= r + [b]
    ensures Precedes(r == [], a, b)
  {
    FollowingAre(items, path);
    var kids := Following(items, path);
    assert kids[n] == (r + [a])[|path|] && kids[l] == (r + [b])[|path|];
    assert kids[n] != kids[l] && Before(OrderAt(path), kids[n], kids[l]);
    assert |r| == |path|;
    assert a in kids && b in kids;
    assert a in items && b in items;
    DifferentIds(items, a, b);
  }

  lemma DifferentIds(items: Items, a: Message, b: Message)
    requires a in items && b in items && a != b
    ensures a.id != b.id
  {
    if a.id == b.id {
      SameId(items, a, b);
    }
  }

  /** Two replies to the end of `r`, rendered in this order, stand in chronological order; two roots newest first. */
  lemma {:induction false} SiblingsOrdered(items: Items, path: seq<Message>, r: seq<Message>, a: Message, b: Message, i: nat, j: nat)
    requires Chain(items, path) && path <= r && i < j < |CardsFrom(items, path)|
    requires CardsFrom(items, path)[i].message == a && CardsFrom(items, path)[j].message == b
    requires Chain(items, r + [a]) && Chain(items, r + [b])
    ensures Precedes(r == [], a, b)
    decreases |Left(items, path)|, 1, 0
  {
    assert i != 0 by {
      DifferentEnds(items, path, r + [a]);
    }
    KidSiblingsOrdered(items, path, 0, r, a, b, i - 1, j - 1);
  }

  lemma {:induction false} KidSiblingsOrdered(items: Items, path: seq<Message>, n: nat, r: seq<Message>,
                                              a: Message, b: Message, i: nat, j: nat)
    requires IsPath(items, path) && path <= r && n <= |Following(items, path)| && i < j < |CardsOf(items, path, n)|
    requires CardsOf(items, path, n)[i].message == a && CardsOf(items, path, n)[j].message == b
    requires Chain(items, r + [a]) && Chain(items, r + [b])
    ensures Precedes(r == [], a, b)
    decreases |Left(items, path)|, 0, |Following(items, path)| - n
  {
    Stepped(items, path, n);
    var first := CardsFrom(items, Step(items, path, n));
    if i >= |first| {
      KidSiblingsOrdered(items, path, n + 1, r, a, b, i - |first|, j - |first|);
    } else if j < |first| {
      BothBelow(items, path, Following(items, path)[n], r, a, b, i, j);
      SiblingsOrdered(items, Step(items, path, n), r, a, b, i, j);
    } else {
      Across(items, path, n, r, a, b, i, j - |first|);
    }
  }

  lemma Across(items: Items, path: seq<Message>, n: nat, r: seq<Message>, a: Message, b: Message, i: nat, j: nat)
    requires IsPath(items, path) && path <= r && n < |Following(items, path)|
    requires Chain(items, Step(items, path, n))
    requires i < |CardsFrom(items, Step(items, path, n))| && j < |CardsOf(items, path, n + 1)|
    requires CardsFrom(items, Step(items, path, n))[i].message == a && CardsOf(items, path, n + 1)[j].message == b
    requires Chain(items, r + [a]) && Chain(items, r + [b])
    ensures Precedes(r == [], a, b)
  {
    ThroughChain(items, Step(items, path, n), r, a, i);
    var l := ThroughKids(items, path, n + 1, r, b, j);
    PartHere(items, path, n, l, r, a, b);
  }

  // ---- The whole forest ----------------------------------------------------

  /** The parent links lead to a root: some ranking puts every parent below its replies. */
  ghost predicate IsRanking(items: Items, rank: Message -> nat) {
    forall m, p :: m in items && p in items && IsReply(items, m, p) ==> rank(p) < rank(m)
  }

  ghost predicate Acyclic(items: Items) {
    exists rank: Message -> nat :: IsRanking(items, rank)
  }

  lemma {:induction false} RankedHasChain(items: Items, rank: Message -> nat, m: Message) returns (path: seq<Message>)
    requires IsRanking(items, rank) && m in items
    ensures Chain(items, path) && Last(path) == m
    decreases rank(m)
  {
    if IsRoot(items, m) {
      path := [m];
    } else {
      var p :| p in items && p.id == m.parent;
      assert IsReply(items, m, p);
      path := RankedHasChain(items, rank, p);
      path := path + [m];
    }
  }

  ghost predicate IsRendered(items: Items, m: Message) {
    exists k :: 0 <= k < |Render(items)| && Render(items)[k].message == m
  }

  ghost predicate LeadsToRoot(items: Items, m: Message) {
    exists path :: Chain(items, path) && Last(path) == m
  }

  /** A message is rendered exactly when its parent links lead to a root. */
  lemma RenderedIff(items: Items, m: Message)
    ensures IsRendered(items, m) <==> LeadsToRoot(items, m)
  {
    if IsRendered(items, m) {
      var k :| 0 <= k < |Render(items)| && Render(items)[k].message == m;
      var path, l := KidsHaveChains(items, [], 0, k);
      assert Chain(items, path) && Last(path) == m;
    }
    if LeadsToRoot(items, m) {
      var path :| Chain(items, path) && Last(path) == m;
      var l := NextStep(items, [], path);
      var k := ChainsHaveKidCards(items, [], 0, l, path);
      assert Render(items)[k].message == m;
    }
  }

  /** The length of the chain to a message, if there is one. */
  ghost function DepthOf(items: Items, m: Message): nat {
    if LeadsToRoot(items, m) then var path :| Chain(items, path) && Last(path) == m; |path| else 0
  }

  lemma DeeperThanParent(items: Items, m: Message, p: Message)
    requires LeadsToRoot(items, p) && IsReply(items, m, p)
    ensures DepthOf(items, p) < DepthOf(items, m)
  {
    var path :| Chain(items, path) && Last(path) == p && DepthOf(items, p) == |path|;
    Extended(items, path, m);
    assert Last(path + [m]) == m;
    assert LeadsToRoot(items, m);
    var longer :| Chain(items, longer) && Last(longer) == m && DepthOf(items, m) == |longer|;
    ChainUnique(items, longer, path + [m]);
  }

  /** Every message is rendered exactly when the parent links are acyclic. */
  lemma AllRenderedIff(items: Items)
    ensures (forall m :: m in items ==> IsRendered(items, m)) <==> Acyclic(items)
  {
    if Acyclic(items) {
      var rank: Message -> nat :| IsRanking(items, rank);
      forall m | m in items ensures IsRendered(items, m) {
        var path := RankedHasChain(items, rank, m);
        RenderedIff(items, m);
      }
    }
    if forall m :: m in items ==> IsRendered(items, m) {
      var rank := (m: Message) => DepthOf(items, m);
      forall m, p | m in items && p in items && IsReply(items, m, p) ensures rank(p) < rank(m) {
        RenderedIff(items, p);
        DeeperThanParent(items, m, p);
      }
      assert IsRanking(items, rank);
    }
  }

  /** A message that names itself as its parent is the shortest cycle: it is in the list and not on the page. */
  lemma SelfReplyIsHidden() returns (items: Items, m: Message)
    ensures items == [m] && m.parent == m.id && !IsRendered(items, m) && !Acyclic(items)
  {
    m := Message(1, 1, 0, 0);
    items := [m];
    assert m in items && Known(items, m.parent);
    RenderedIff(items, m);
    AllRenderedIff(items);
  }

  /** The layout of the whole list: no message twice; a card is at depth zero exactly when its message is a root, and
      otherwise comes after its parent's card, one level deeper; roots stand newest first and the replies to one
      message in chronological order. */
  ghost predicate WellLaidOut(items: Items, cards: seq<Card>) {
    && (forall i, j :: 0 <= i < j < |cards| ==> cards[i].message != cards[j].message)
    && (forall k :: 0 <= k < |cards| ==> cards[k].message in items && (cards[k].depth == 0 <==> IsRoot(items, cards[k].message)))
    && (forall k :: 0 <= k < |cards| && cards[k].depth > 0 ==> exists i :: 0 <= i < k && IsParentCard(cards[i], cards[k]))
    && (forall i, j :: 0 <= i < j < |cards| && cards[i].depth == 0 && cards[j].depth == 0 ==>
          var a, b := cards[i].message, cards[j].message;
          a.updated > b.updated || (a.updated == b.updated && a.id > b.id))
    && (forall i, j :: 0 <= i < j < |cards| && cards[i].depth > 0 && cards[j].depth > 0
                       && cards[i].message.parent == cards[j].message.parent ==>
          var a, b := cards[i].message, cards[j].message;
          a.created < b.created || (a.created == b.created && a.id < b.id))
  }

  lemma CardStands(items: Items, k: nat) returns (path: seq<Message>)
    requires k < |Render(items)|
    ensures Chain(items, path) && Render(items)[k] == Card(Last(path), |path| - 1) && Last(path) in items
    ensures |path| == 1 <==> IsRoot(items, Last(path))
  {
    var l;
    path, l := KidsHaveChains(items, [], 0, k);
    ChainIn(items, path);
    if |path| > 1 {
      ChainInit(items, path);
    }
  }

  lemma SiblingCards(items: Items, i: nat, j: nat)
    requires i < j < |Render(items)|
    requires Render(items)[i].depth > 0 && Render(items)[j].depth > 0
    requires Render(items)[i].message.parent == Render(items)[j].message.parent
    ensures var a, b := Render(items)[i].message, Render(items)[j].message;
            a.created < b.created || (a.created == b.created && a.id < b.id)
  {
    var p := CardStands(items, i);
    var q := CardStands(items, j);
    ChainInit(items, p);
    ChainInit(items, q);
    var r, r' := p[..|p| - 1], q[..|q| - 1];
    ChainIn(items, r);
    ChainIn(items, r');
    SameId(items, Last(r), Last(r'));
    ChainUnique(items, r, r');
    assert p == r + [Last(p)] && q == r + [Last(q)];
    KidSiblingsOrdered(items, [], 0, r, Last(p), Last(q), i, j);
  }

  lemma RootCards(items: Items, i: nat, j: nat)
    requires i < j < |Render(items)| && Render(items)[i].depth == 0 && Render(items)[j].depth == 0
    ensures var a, b := Render(items)[i].message, Render(items)[j].message;
            a.updated > b.updated || (a.updated == b.updated && a.id > b.id)
  {
    var p := CardStands(items, i);
    var q := CardStands(items, j);
    assert p == [] + [Last(p)] && q == [] + [Last(q)];
    KidSiblingsOrdered(items, [], 0, [], Last(p), Last(q), i, j);
  }

  lemma ForestIsWellLaidOut(items: Items)
    ensures WellLaidOut(items, Render(items))
  {
    var cards := Render(items);
    forall i, j | 0 <= i < j < |cards| ensures cards[i].message != cards[j].message {
      KidCardsDiffer(items, [], 0, i, j);
    }
    forall k | 0 <= k < |cards|
      ensures cards[k].message in items && (cards[k].depth == 0 <==> IsRoot(items, cards[k].message))
    {
      var path := CardStands(items, k);
    }
    forall k | 0 <= k < |cards| && cards[k].depth > 0
      ensures exists i :: 0 <= i < k && IsParentCard(cards[i], cards[k])
    {
      var i := KidParentFirst(items, [], 0, k);
    }
    forall i, j | 0 <= i < j < |cards| && cards[i].depth == 0 && cards[j].depth == 0
      ensures var a, b := cards[i].message, cards[j].message; a.updated > b.updated || (a.updated == b.updated && a.id > b.id)
    {
      RootCards(items, i, j);
    }
    forall i, j | 0 <= i < j < |cards| && cards[i].depth > 0 && cards[j].depth > 0 && cards[i].message.parent == cards[j].message.parent
      ensures var a, b := cards[i].message, cards[j].message; a.created < b.created || (a.created == b.created && a.id < b.id)
    {
      SiblingCards(items, i, j);
    }
  }
}
