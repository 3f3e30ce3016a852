/**
 What the word trie of registry/service.go stands for, as a value. A path is given by the
 pieces its text has between slashes, so "/a/b" is ["", "a", "b"] and "/" is ["", ""].
 */
module TrieModel {

  type Word = string
  type Path = p: seq<Word> | |p| > 0 witness [""]

  /** The pieces without the empty one that a leading slash makes. */
  function Strip(path: Path): seq<Word> {
    if path[0] == "" then path[1..] else path
  }

  /** A leading slash goes, and nothing else does. */
  lemma StripIs(path: Path)
    ensures path == if path[0] == "" then [""] + Strip(path) else Strip(path)
  {
  }

  function Child(p: seq<Word>, w: Word): (c: seq<Word>)
    ensures |c| == |p| + 1 && c[|p|] == w
  {
    p + [w]
  }

  datatype Cell = Cell(isSet: bool, path: Path, kids: set<Word>)

  /** One cell per node, keyed by the words that lead to it; the root's kids are the headers. */
  type Tree = map<seq<Word>, Cell>

  const EMPTY: Tree := map[[] := Cell(false, [""], {})]

  ghost predicate WellFormed(t: Tree) {
    && [] in t && !t[[]].isSet
    && (forall p, n {:trigger p[..n]} | p in t && 0 <= n <= |p| :: p[..n] in t)
    && (forall p, w {:trigger Child(p, w)} | p in t :: w in t[p].kids <==> Child(p, w) in t)
    && (forall p | p in t && t[p].isSet :: Strip(t[p].path) == p)
  }

  /** No node is without a set node at or below it; `except` is a node being worked on. */
  ghost predicate Pruned(t: Tree, except: set<seq<Word>>) {
    forall p | p in t && p != [] && p !in except :: t[p].isSet || t[p].kids != {}
  }

  /** The stored word sequences, each with the path text last added for it. */
  ghost function Stored(t: Tree): map<seq<Word>, Path> {
    map p | p in t && t[p].isSet :: PathAt(t, p)
  }

  ghost function PathAt(t: Tree, p: seq<Word>): Path {
    if p in t && t[p].isSet then t[p].path else [""]
  }

  ghost function AddKid(t: Tree, p: seq<Word>, w: Word): Tree
    requires p in t
  {
    t[p := t[p].(kids := t[p].kids + {w})][Child(p, w) := Cell(false, [""], {})]
  }

  ghost function DropKid(t: Tree, p: seq<Word>, w: Word): Tree
    requires p in t
  {
    t[p := t[p].(kids := t[p].kids - {w})] - {Child(p, w)}
  }

  lemma AddKidIsHarmless(t: Tree, p: seq<Word>, w: Word)
    requires WellFormed(t) && p in t && w !in t[p].kids
    ensures WellFormed(AddKid(t, p, w))
    ensures Stored(AddKid(t, p, w)) == Stored(t)
    ensures Pruned(t, {p}) ==> Pruned(AddKid(t, p, w), {Child(p, w)})
  {
    var t', c := AddKid(t, p, w), Child(p, w);
    forall q, n {:trigger q[..n]} | q in t' && 0 <= n <= |q| ensures q[..n] in t' {
      if q == c {
        assert c[..n] == if n <= |p| then p[..n] else c;
      }
    }
    forall q, x {:trigger Child(q, x)} | q in t' ensures x in t'[q].kids <==> Child(q, x) in t' {
      if q == c {
        assert c !in t && Child(c, x)[..|c|] == c;
        assert Child(c, x) !in t;
      } else if Child(q, x) == c {
        assert Child(q, x)[..|q|] == q && c[..|p|] == p;
        assert q == p && x == w;
      }
    }
  }

  lemma SetIsInsert(t: Tree, p: seq<Word>, path: Path)
    requires WellFormed(t) && p in t && p != [] && Strip(path) == p && Pruned(t, {p})
    ensures var t' := t[p := t[p].(isSet := true, path := path)];
            WellFormed(t') && Pruned(t', {}) && Stored(t') == Stored(t)[p := path]
  {
  }

  lemma ClearIsRemove(t: Tree, p: seq<Word>)
    requires WellFormed(t) && p in t && Pruned(t, {})
    ensures var t' := t[p := t[p].(isSet := false)];
            WellFormed(t') && Pruned(t', {p}) && Stored(t') == Stored(t) - {p}
  {
  }

  lemma DropKidIsHarmless(t: Tree, p: seq<Word>, w: Word)
    requires WellFormed(t) && p in t && w in t[p].kids
    requires var c := Child(p, w); c in t && !t[c].isSet && t[c].kids == {}
    ensures WellFormed(DropKid(t, p, w))
    ensures Stored(DropKid(t, p, w)) == Stored(t)
    ensures Pruned(t, {Child(p, w)}) ==> Pruned(DropKid(t, p, w), {p})
  {
    var t', c := DropKid(t, p, w), Child(p, w);
    forall q, n {:trigger q[..n]} | q in t' && 0 <= n <= |q| ensures q[..n] in t' {
      assert q[..|q|] == q;
      if n < |q| {
        assert q[..n + 1] in t && q[..n + 1] == Child(q[..n], q[n]);
      }
    }
    forall q, x {:trigger Child(q, x)} | q in t' ensures x in t'[q].kids <==> Child(q, x) in t' {
      if Child(q, x) == c {
        assert Child(q, x)[..|q|] == q && c[..|p|] == p;
        assert q == p && x == w;
      }
    }
  }

  // ---------------------------------------------------------------- the walks of add and delete

  /** Down from p along words, making what is missing, then setting the last node. */
  ghost function Added(t: Tree, p: seq<Word>, words: seq<Word>, path: Path): Tree
    requires p in t
    decreases |words|
  {
    if words == [] then t[p := t[p].(isSet := true, path := path)]
    else
      var t' := if words[0] in t[p].kids then t else AddKid(t, p, words[0]);
      if Child(p, words[0]) in t' then Added(t', Child(p, words[0]), words[1..], path) else t'
  }

  /** A node that is not set and has no kids goes. */
  ghost function Tidied(t: Tree, p: seq<Word>, w: Word): Tree
    requires p in t && Child(p, w) in t
  {
    if !t[Child(p, w)].isSet && t[Child(p, w)].kids == {} then DropKid(t, p, w) else t
  }

  /** Down from p along words, unsetting the last node and tidying on the way back; `found` says it was there. */
  ghost function Deleted(t: Tree, p: seq<Word>, words: seq<Word>): (r: (Tree, bool))
    requires p in t
    ensures forall q | q in t && |q| < |p| :: q in r.0 && r.0[q] == t[q]
    ensures p in r.0 && (!r.1 ==> r.0 == t)
    decreases |words|
  {
    if words == [] then (t[p := t[p].(isSet := false)], true)
    else if words[0] !in t[p].kids || Child(p, words[0]) !in t then (t, false)
    else
      var c := Child(p, words[0]);
      var (t', found) := Deleted(t, c, words[1..]);
      if found then (Tidied(t', p, words[0]), true) else (t', false)
  }

  /** The header's own walk tidies whether or not the rest was found. */
  ghost function HeaderDeleted(t: Tree, p: seq<Word>, words: seq<Word>): (t': Tree)
    requires p in t
    ensures p in t' && (forall q | q in t && |q| < |p| :: q in t')
  {
    if words == [] then t[p := t[p].(isSet := false)]
    else if words[0] !in t[p].kids || Child(p, words[0]) !in t then t
    else
      var t' := Deleted(t, Child(p, words[0]), words[1..]).0;
      Tidied(t', p, words[0])
  }

  /** So does the trie's walk from the root. */
  ghost function HeaderlessDeleted(t: Tree, words: seq<Word>): Tree
    requires [] in t && words != [] && Child([], words[0]) in t
  {
    Tidied(HeaderDeleted(t, Child([], words[0]), words[1..]), [], words[0])
  }

  /** In a pruned tree there is nothing to tidy when nothing was found. */
  lemma WalksAgree(t: Tree, words: seq<Word>)
    requires WellFormed(t) && Pruned(t, {}) && words != [] && words[0] in t[[]].kids
    ensures Child([], words[0]) in t && HeaderlessDeleted(t, words) == Deleted(t, [], words).0
  {
    var c := Child([], words[0]);
    assert c in t;
    if |words| > 1 && words[1] in t[c].kids {
      assert Child(c, words[1]) in t;
    }
  }

  lemma {:induction false} AddedIsInsert(t: Tree, p: seq<Word>, words: seq<Word>, path: Path)
    requires WellFormed(t) && p in t && p + words != [] && Strip(path) == p + words
    requires Pruned(t, {p})
    ensures var t' := Added(t, p, words, path);
            WellFormed(t') && Pruned(t', {}) && Stored(t') == Stored(t)[p + words := path]
    decreases |words|
  {
    if words == [] {
      assert p + words == p;
      SetIsInsert(t, p, path);
    } else {
      var w := words[0];
      assert p + words == Child(p, w) + words[1..];
      if w !in t[p].kids {
        AddKidIsHarmless(t, p, w);
        AddedIsInsert(AddKid(t, p, w), Child(p, w), words[1..], path);
      } else {
        assert Child(p, w) in t;
        AddedIsInsert(t, Child(p, w), words[1..], path);
      }
    }
  }

  lemma {:induction false} DeletedIsRemove(t: Tree, p: seq<Word>, words: seq<Word>)
    requires WellFormed(t) && p in t && p + words != [] && Pruned(t, {})
    ensures var (t', _) := Deleted(t, p, words);
            WellFormed(t') && Pruned(t', {p}) && Stored(t') == Stored(t) - {p + words}
    decreases |words|
  {
    if words == [] {
      assert p + words == p;
      ClearIsRemove(t, p);
    } else {
      var w, c := words[0], Child(p, words[0]);
      assert p + words == c + words[1..];
      if w in t[p].kids {
        assert c in t;
        DeletedIsRemove(t, c, words[1..]);
        var (t', found) := Deleted(t, c, words[1..]);
        assert w in t'[p].kids;
        if !t'[c].isSet && t'[c].kids == {} {
          DropKidIsHarmless(t', p, w);
        }
      } else {
        assert c !in t;
        assert (p + words)[..|p| + 1] == c;
        assert p + words !in t;
      }
    }
  }

  // ---------------------------------------------------------------- searching

  /** The paths stored at or below p. */
  ghost function Under(t: Tree, p: seq<Word>): set<Path> {
    set q | q in t && t[q].isSet && p <= q :: t[q].path
  }

  /** The paths stored below p whose next word is one of ws. */
  ghost function Below(t: Tree, p: seq<Word>, ws: set<Word>): set<Path> {
    set q | q in t && t[q].isSet && p < q && q[|p|] in ws :: t[q].path
  }

  /** What a query asks for: nothing, everything, or all that strictly extends some words; a last slash is ignored. */
  datatype Query = Nothing | Extensions(words: seq<Word>)

  /** The pieces without the empty one that a last slash makes. */
  function Core(words: seq<Word>): (core: seq<Word>)
    ensures words == if words != [] && words[|words| - 1] == "" then core + [""] else core
  {
    if words != [] && words[|words| - 1] == "" then words[..|words| - 1] else words
  }

  function QueryOf(path: Path): Query {
    var words := Strip(path);
    if words == [] then Nothing
    else if words[0] == "" then Extensions([])
    else Extensions(Core(words))
  }

  /** The path is these words, with or without a slash before and behind. */
  predicate Spells(path: Path, words: seq<Word>) {
    && words != [] && "" !in words
    && (path == words || path == [""] + words || path == words + [""] || path == [""] + words + [""])
  }

  /**
   What each path asks for: words with or without a slash before and behind ask for the names that extend these
   words, the path "/" and every one that starts with two slashes for all names, and the empty path for none.
   */
  lemma QueryMeans(path: Path)
    ensures forall words | Spells(path, words) :: QueryOf(path) == Extensions(words)
    ensures QueryOf(path) == Extensions([]) <==> |path| >= 2 && path[0] == "" && path[1] == ""
    ensures QueryOf(path) == Nothing <==> path == [""]
  {
    StripIs(path);
    forall words | Spells(path, words) ensures QueryOf(path) == Extensions(words) {
      assert Strip(path) == words || Strip(path) == words + [""];
      assert Strip(path)[0] == words[0] != "" && words[|words| - 1] != "";
    }
  }

  lemma QueryStartsAt(path: Path)
    requires Strip(path) != [] && Strip(path)[0] != ""
    ensures var words := Strip(path);
            && QueryOf(path) == Extensions(Child([], words[0]) + Core(words[1..]))
            && QueryOf(path).words[..1] == Child([], words[0])
  {
    var words := Strip(path);
    assert words == Child([], words[0]) + words[1..];
    assert |words| > 1 ==> words[..|words| - 1] == Child([], words[0]) + words[1..][..|words| - 2];
  }

  /** Each stored path that strictly extends the query is listed once, and nothing else is. */
  ghost predicate Answers(stored: map<seq<Word>, Path>, q: Query, matches: seq<Path>) {
    multiset(matches) ==
    if q.Nothing? then multiset{} else multiset(set p | p in stored && q.words < p :: stored[p])
  }

  lemma UnderIsHereAndBelow(t: Tree, p: seq<Word>)
    requires WellFormed(t) && p in t
    ensures var here := if t[p].isSet then {t[p].path} else {};
            Under(t, p) == here + Below(t, p, t[p].kids) && here !! Below(t, p, t[p].kids)
  {
    forall q | q in t && t[q].isSet && p <= q ensures q == p || (p < q && q[|p|] in t[p].kids) {
      if q != p {
        NextIsKid(t, p, q);
      }
    }
  }

  lemma NextIsKid(t: Tree, p: seq<Word>, q: seq<Word>)
    requires WellFormed(t) && q in t && p <= q && p != q
    ensures p in t && p < q && q[|p|] in t[p].kids
  {
    assert p[..|p|] == p;
    assert q[..|p|] == p && q[..|p| + 1] == Child(p, q[|p|]);
  }

  lemma BelowOneMore(t: Tree, p: seq<Word>, ws: set<Word>, w: Word)
    requires WellFormed(t) && w !in ws
    ensures Below(t, p, ws + {w}) == Below(t, p, ws) + Under(t, Child(p, w))
    ensures Below(t, p, ws) !! Under(t, Child(p, w))
  {
    assert forall q | Child(p, w) <= q :: p < q && q[|p|] == w;
    assert forall q | p < q && q[|p|] == w :: Child(p, w) <= q;
  }

  /** The strict extensions of p are what lies below its kids. */
  lemma ExtensionsAreBelow(t: Tree, p: seq<Word>)
    requires WellFormed(t) && p in t
    ensures Below(t, p, t[p].kids) == set q | q in Stored(t) && p < q :: Stored(t)[q]
  {
    forall q | q in t && t[q].isSet && p < q ensures q[|p|] in t[p].kids {
      NextIsKid(t, p, q);
    }
    var a, b := Below(t, p, t[p].kids), set q | q in Stored(t) && p < q :: Stored(t)[q];
    forall path | path in b ensures path in a {
      var q :| q in Stored(t) && p < q && Stored(t)[q] == path;
      assert q in t && t[q].isSet && p < q && q[|p|] in t[p].kids && t[q].path == path;
    }
    forall path | path in a ensures path in b {
      var q :| q in t && t[q].isSet && p < q && q[|p|] in t[p].kids && t[q].path == path;
      assert q in Stored(t) && Stored(t)[q] == path;
    }
  }

  lemma NothingExtendsAbsent(t: Tree, p: seq<Word>, n: nat)
    requires WellFormed(t) && n <= |p| && p[..n] !in t
    ensures (set q | q in Stored(t) && p < q :: Stored(t)[q]) == {}
  {
    assert forall q | q in t && p < q :: q[..n] == p[..n] && q[..n] in t;
  }

  lemma DisjointSum<T>(a: set<T>, b: set<T>)
    requires a !! b
    ensures multiset(a + b) == multiset(a) + multiset(b)
  {
  }

  /** The nodes at or below p, the measure of a walk through them. */
  ghost function Region(t: Tree, p: seq<Word>): set<seq<Word>> {
    set q | q in t && p <= q
  }

  lemma RegionShrinks(t: Tree, p: seq<Word>, w: Word)
    requires p in t
    ensures Region(t, Child(p, w)) < Region(t, p)
  {
    assert p in Region(t, p) && p !in Region(t, Child(p, w));
    forall q | q in Region(t, Child(p, w)) ensures q in Region(t, p) {
      assert p == Child(p, w)[..|p|] == q[..|p|];
    }
  }

  /** One more kid visited: the lists so far and the kid's list make the longer list. */
  lemma VisitedOneMore(t: Tree, p: seq<Word>, ws: set<Word>, w: Word,
                       start: seq<Path>, before: seq<Path>, after: seq<Path>)
    requires WellFormed(t) && w !in ws
    requires multiset(before) == multiset(start) + multiset(Below(t, p, ws))
    requires multiset(after) == multiset(before) + multiset(Under(t, Child(p, w)))
    ensures multiset(after) == multiset(start) + multiset(Below(t, p, ws + {w}))
  {
    BelowOneMore(t, p, ws, w);
    DisjointSum(Below(t, p, ws), Under(t, Child(p, w)));
  }

  lemma VisitedHere(t: Tree, p: seq<Word>, start: seq<Path>, before: seq<Path>, after: seq<Path>)
    requires WellFormed(t) && p in t
    requires before == if t[p].isSet then start + [t[p].path] else start
    requires multiset(after) == multiset(before) + multiset(Below(t, p, t[p].kids))
    ensures multiset(after) == multiset(start) + multiset(Under(t, p))
  {
    UnderIsHereAndBelow(t, p);
    var here := if t[p].isSet then {t[p].path} else {};
    DisjointSum(here, Below(t, p, t[p].kids));
    assert multiset(before) == multiset(start) + multiset(here);
  }

  /** Below every node there is something stored. */
  lemma {:induction false} EveryNodeLeadsToStored(t: Tree, p: seq<Word>)
    requires WellFormed(t) && Pruned(t, {}) && p in t && p != []
    ensures exists q :: q in Stored(t) && p <= q
    decreases Region(t, p)
  {
    if t[p].isSet {
      assert p in Stored(t) && p <= p;
    } else {
      var w :| w in t[p].kids;
      assert Child(p, w) in t;
      RegionShrinks(t, p, w);
      EveryNodeLeadsToStored(t, Child(p, w));
      var q :| q in Stored(t) && Child(p, w) <= q;
      assert Child(p, w)[..|p|] == p && q[..|p|] == Child(p, w)[..|p|];
    }
  }

  /** So a trie from which everything was deleted has no node left. */
  lemma EmptyWhenNothingStored(t: Tree)
    requires WellFormed(t) && Pruned(t, {}) && Stored(t) == map[]
    ensures t.Keys == {[]}
  {
    forall p | p in t && p != [] ensures false {
      EveryNodeLeadsToStored(t, p);
      assert false;
    }
  }
}
