/** The clue inventory as a value: the binary search tree that `NoPista`
    nodes form, with `inserirPista` as `Insert` and the in-order walk of
    `exibirPistas` as `InOrder`. The heap version in ClueStore is proved to
    compute exactly these values. */
module ClueTree {
  import opened TextOrder

  datatype Tree = Empty | Node(left: Tree, text: string, right: Tree)

  /** The set of texts stored in a tree. */
  function Contents(t: Tree): set<string>
  {
    match t
    case Empty => {}
    case Node(l, v, r) => Contents(l) + {v} + Contents(r)
  }

  /** The search-tree ordering: every text in a left subtree sorts before its
      node and every text in a right subtree after it, at every node. */
  ghost predicate IsBst(t: Tree)
  {
    match t
    case Empty => true
    case Node(l, v, r) =>
      IsBst(l) && IsBst(r) &&
      (forall y :: y in Contents(l) ==> Less(y, v)) &&
      (forall y :: y in Contents(r) ==> Less(v, y))
  }

  /** Every text sorts strictly before every later one: ascending, and no
      text repeated. */
  ghost predicate StrictlyAscending(s: seq<string>)
  {
    forall i, j :: 0 <= i < j < |s| ==> Less(s[i], s[j])
  }

  /** `inserirPista`: an empty spot gets a new leaf; an equal text leaves the
      tree as it is; a text that sorts first goes left, any other goes right. */
  function Insert(t: Tree, x: string): (r: Tree)
    ensures Contents(r) == Contents(t) + {x}
    ensures t == Empty ==> r == Node(Empty, x, Empty)
  {
    match t
    case Empty => Node(Empty, x, Empty)
    case Node(l, v, rt) =>
      if x == v then t
      else if Less(x, v) then Node(Insert(l, x), v, rt)
      else Node(l, v, Insert(rt, x))
  }

  /** `exibirPistas`: left subtree, then the node, then the right subtree.
      It lists each stored text and nothing else. */
  function InOrder(t: Tree): (s: seq<string>)
    ensures forall y :: y in s <==> y in Contents(t)
  {
    match t
    case Empty => []
    case Node(l, v, r) => InOrder(l) + [v] + InOrder(r)
  }

  /** The inventory built by inserting `xs[0]`, `xs[1]`, ... in turn into an
      empty tree. */
  function Build(xs: seq<string>): Tree
  {
    if xs == [] then Empty else Insert(Build(xs[..|xs| - 1]), xs[|xs| - 1])
  }

  /** Inserting a text that is already stored changes nothing. */
  lemma {:induction false} InsertPresent(t: Tree, x: string)
    requires IsBst(t) && x in Contents(t)
    ensures Insert(t, x) == t
  {
    match t
    case Node(l, v, r) =>
      if x != v {
        LessTrichotomy(x, v);
        if Less(x, v) {
          InsertPresent(l, x);
        } else {
          InsertPresent(r, x);
        }
      }
  }

  /** Inserting the same text twice is the same as inserting it once: the
      second insertion follows the first one's path and finds the text there. */
  lemma {:induction false} InsertIdempotent(t: Tree, x: string)
    ensures Insert(Insert(t, x), x) == Insert(t, x)
  {
    match t
    case Empty =>
    case Node(l, v, r) =>
      if x != v {
        if Less(x, v) {
          InsertIdempotent(l, x);
        } else {
          InsertIdempotent(r, x);
        }
      }
  }

  /** `inserirPista` keeps the search-tree ordering. */
  lemma {:induction false} InsertKeepsOrder(t: Tree, x: string)
    requires IsBst(t)
    ensures IsBst(Insert(t, x))
  {
    match t
    case Empty =>
    case Node(l, v, r) =>
      if x != v {
        LessTrichotomy(x, v);
        if Less(x, v) {
          InsertKeepsOrder(l, x);
        } else {
          InsertKeepsOrder(r, x);
        }
      }
  }

  /** The in-order walk of a search tree is strictly ascending. */
  lemma {:induction false} InOrderAscending(t: Tree)
    requires IsBst(t)
    ensures StrictlyAscending(InOrder(t))
  {
    match t
    case Empty =>
    case Node(l, v, r) =>
      InOrderAscending(l);
      InOrderAscending(r);
      var a, b := InOrder(l), InOrder(r);
      var s := a + [v] + b;
      forall i, j | 0 <= i < j < |s|
        ensures Less(s[i], s[j])
      {
        if j < |a| {
          assert s[i] == a[i] && s[j] == a[j];
        } else if i > |a| {
          assert s[i] == b[i - |a| - 1] && s[j] == b[j - |a| - 1];
        } else if i == |a| {
          assert s[j] == b[j - |a| - 1] && s[j] in Contents(r);
        } else if j == |a| {
          assert s[i] == a[i] && s[i] in Contents(l);
        } else {
          assert s[i] == a[i] && s[i] in Contents(l);
          assert s[j] == b[j - |a| - 1] && s[j] in Contents(r);
          LessTransitive(s[i], v, s[j]);
        }
      }
  }

  /** A strictly ascending sequence holds no text twice. */
  lemma AscendingDistinct(s: seq<string>, i: int, j: int)
    requires StrictlyAscending(s)
    requires 0 <= i < |s| && 0 <= j < |s| && i != j
    ensures s[i] != s[j]
  {
  }

  lemma HeadIsMember(u: seq<string>)
    requires u != []
    ensures u[0] in u
  {
  }

  /** Two strictly ascending sequences holding the same texts are equal: the
      sorted listing depends only on which texts are stored. */
  lemma {:induction false} AscendingDetermined(s: seq<string>, u: seq<string>)
    requires StrictlyAscending(s) && StrictlyAscending(u)
    requires forall y :: y in s <==> y in u
    ensures s == u
    decreases |s|
  {
    if s == [] {
      if u != [] {
        HeadIsMember(u);
        assert false;
      }
    } else {
      assert s[0] in u;
      assert u != [] && u[0] in s;
      var j :| 0 <= j < |s| && s[j] == u[0];
      var k :| 0 <= k < |u| && u[k] == s[0];
      if j != 0 && k != 0 {
        assert Less(s[0], s[j]) && Less(u[0], u[k]);
        LessTrichotomy(s[0], u[0]);
      }
      assert s[0] == u[0];
      forall y
        ensures y in s[1..] <==> y in u[1..]
      {
        if y in s[1..] {
          var m :| 1 <= m < |s| && s[m] == y;
          AscendingDistinct(s, 0, m);
          assert y in u;
        }
        if y in u[1..] {
          var m :| 1 <= m < |u| && u[m] == y;
          AscendingDistinct(u, 0, m);
          assert y in s;
        }
      }
      AscendingDetermined(s[1..], u[1..]);
      assert s == [s[0]] + s[1..] && u == [u[0]] + u[1..];
    }
  }

  /** Whatever the insertion order, the inventory is a search tree that holds
      exactly the inserted texts, and its in-order walk is strictly ascending. */
  lemma {:induction false} BuildSorted(xs: seq<string>)
    ensures IsBst(Build(xs))
    ensures Contents(Build(xs)) == set x | x in xs
    ensures StrictlyAscending(InOrder(Build(xs)))
    decreases |xs|
  {
    if xs != [] {
      var init := xs[..|xs| - 1];
      BuildSorted(init);
      InsertKeepsOrder(Build(init), xs[|xs| - 1]);
      assert xs == init + [xs[|xs| - 1]];
    }
    InOrderAscending(Build(xs));
  }

  /** Two insertion orders of the same texts give the same listing. */
  lemma ListingIgnoresInsertionOrder(xs: seq<string>, ys: seq<string>)
    requires forall y :: y in xs <==> y in ys
    ensures InOrder(Build(xs)) == InOrder(Build(ys))
  {
    BuildSorted(xs);
    BuildSorted(ys);
    AscendingDetermined(InOrder(Build(xs)), InOrder(Build(ys)));
  }
}
