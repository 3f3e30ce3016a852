/** The word trie of registry/service.go as linked nodes that are changed in place. */
module Trie {
  import opened Prelude
  import opened TrieModel

  datatype Error = InvalidArgs | NotFound

  /** Header nodes and inner nodes have the same fields. */
  class TrieNode {
    var value: Word
    var path: Path
    var isSet: bool
    var nodes: map<Word, TrieNode>
    ghost const words: seq<Word>  // the words that lead here

    constructor (value: Word, ghost words: seq<Word>)
      ensures this.value == value && this.words == words && path == [""] && !isSet && nodes == map[]
    {
      this.words := words;
      this.value, path, isSet, nodes := value, [""], false, map[];
    }
  }

  class WordTrie {
    var headers: map<Word, TrieNode>
    ghost var tree: Tree                        // the value this trie represents
    ghost var live: set<TrieNode>               // the nodes that are part of the trie
    ghost var at: map<seq<Word>, TrieNode>      // the live node at each sequence of words

    /** The live nodes are linked as the tree says, and no two of them stand for the same words. */
    ghost predicate Linked()
      reads this, live
    {
      && [] in tree && headers.Keys == tree[[]].kids
      && (forall w | w in headers :: headers[w] in live && headers[w].words == Child([], w))
      && (forall n | n in live :: n.words in at && at[n.words] == n)
      && (forall n | n in live ::
            n.words != [] && n.words in tree && tree[n.words] == Cell(n.isSet, n.path, n.nodes.Keys))
      && (forall n, w | n in live && w in n.nodes :: n.nodes[w] in live && n.nodes[w].words == Child(n.words, w))
    }

    ghost predicate Valid()
      reads this, live
    {
      Linked() && WellFormed(tree) && Pruned(tree, {})
    }

    constructor ()
      ensures Valid() && live == {} && Stored(tree) == map[]
    {
      headers, tree, live, at := map[], EMPTY, {}, map[];
    }

    // ---------------------------------------------------------------- single changes

    /** A node for words that had none; it is not linked to its parent yet. */
    method Fresh(w: Word, ghost words: seq<Word>) returns (node: TrieNode)
      requires Linked() && words !in tree && words != []
      modifies this`tree, this`live, this`at
      ensures Linked() && fresh(node) && live == old(live) + {node} && node.words == words && node.nodes == map[]
      ensures tree == old(tree)[words := Cell(false, [""], {})]
    {
      node := new TrieNode(w, words);
      live, at, tree := live + {node}, at[words := node], tree[words := Cell(false, [""], {})];
    }

    method NewHeader(w: Word) returns (header: TrieNode)
      requires Linked() && Child([], w) !in tree
      modifies this
      ensures Linked() && fresh(header) && live == old(live) + {header} && header.words == Child([], w)
      ensures tree == AddKid(old(tree), [], w)
    {
      header := Fresh(w, Child([], w));
      headers := headers[w := header];
      tree := tree[[] := tree[[]].(kids := tree[[]].kids + {w})];
    }

    method NewNode(node: TrieNode, w: Word) returns (node': TrieNode)
      requires Linked() && node in live && Child(node.words, w) !in tree
      modifies this`at, this`live, this`tree, node`nodes
      ensures Linked() && fresh(node') && live == old(live) + {node'} && node'.words == Child(node.words, w)
      ensures tree == AddKid(old(tree), node.words, w)
    {
      node' := Fresh(w, Child(node.words, w));
      LinkTo(node, w, node');
    }

    method LinkTo(node: TrieNode, w: Word, child: TrieNode)
      requires Linked() && node in live && child in live && child.words == Child(node.words, w)
      modifies this`tree, node`nodes
      ensures Linked() && node.nodes == old(node.nodes)[w := child]
      ensures tree == old(tree)[node.words := old(tree)[node.words].(kids := old(tree)[node.words].kids + {w})]
    {
      assert forall n | n in live && n.words == node.words :: n == node;
      node.nodes := node.nodes[w := child];
      tree := tree[node.words := tree[node.words].(kids := tree[node.words].kids + {w})];
    }

    method Unlink(node: TrieNode, w: Word)
      requires Linked() && node in live
      modifies this`tree, node`nodes
      ensures Linked() && node.nodes == old(node.nodes) - {w}
      ensures tree == old(tree)[node.words := old(tree)[node.words].(kids := old(tree)[node.words].kids - {w})]
    {
      assert forall n | n in live && n.words == node.words :: n == node;
      node.nodes := node.nodes - {w};
      tree := tree[node.words := tree[node.words].(kids := tree[node.words].kids - {w})];
    }

    /** Gives up a node that nothing leads to. */
    ghost method Discard(node: TrieNode)
      requires Linked() && node in live && node !in headers.Values
      requires forall n | n in live :: node !in n.nodes.Values
      modifies this`tree, this`live
      ensures Linked() && live == old(live) - {node} && tree == old(tree) - {node.words}
    {
      live, tree := live - {node}, tree - {node.words};
    }

    method SetNode(node: TrieNode, path: Path)
      requires Linked() && node in live
      modifies this`tree, node`isSet, node`path
      ensures Linked()
      ensures tree == old(tree)[node.words := old(tree)[node.words].(isSet := true, path := path)]
    {
      node.path := path;
      node.isSet := true;
      tree := tree[node.words := tree[node.words].(isSet := true, path := path)];
    }

    method UnsetNode(node: TrieNode)
      requires Linked() && node in live
      modifies this`tree, node`isSet
      ensures Linked()
      ensures tree == old(tree)[node.words := old(tree)[node.words].(isSet := false)]
    {
      node.isSet := false;
      tree := tree[node.words := tree[node.words].(isSet := false)];
    }

    method DropNode(node: TrieNode, w: Word)
      requires Linked() && node in live && w in node.nodes && node.nodes[w].nodes == map[]
      modifies this`tree, this`live, node`nodes
      ensures Linked() && live == old(live) - {old(node.nodes[w])}
      ensures tree == DropKid(old(tree), node.words, w)
    {
      ghost var child := node.nodes[w];
      OneParent(node, w);
      Unlink(node, w);
      Discard(child);
    }

    /** A node is reached from its parent only. */
    lemma OneParent(node: TrieNode, w: Word)
      requires Linked() && node in live && w in node.nodes
      ensures node.nodes[w] !in headers.Values && node.nodes[w] != node
      ensures forall n, x | n in live && x in n.nodes && n.nodes[x] == node.nodes[w] :: n == node && x == w
    {
      var c := Child(node.words, w);
      assert c[..|node.words|] == node.words;
      forall n, x | n in live && x in n.nodes && n.nodes[x] == node.nodes[w] ensures n == node && x == w {
        assert Child(n.words, x)[..|n.words|] == n.words;
      }
    }

    method DropHeader(w: Word)
      requires Linked() && w in headers && headers[w].nodes == map[]
      modifies this
      ensures Linked() && live == old(live) - {old(headers[w])}
      ensures tree == DropKid(old(tree), [], w)
    {
      var header := headers[w];
      headers := headers - {w};
      live, tree := live - {header}, DropKid(tree, [], w);
    }

    // ---------------------------------------------------------------- operations

    method Add(path: Path) returns (err: Option<Error>)
      requires Valid()
      modifies this, live
      ensures Valid() && fresh(live - old(live))
      ensures var words := Strip(path);
              if words == [] then err == None && Stored(tree) == old(Stored(tree))
              else if "" in words[1..] then err == Some(InvalidArgs) && Stored(tree) == old(Stored(tree))
              else err == None && Stored(tree) == old(Stored(tree))[words := path]
    {
      var words := Strip(path);
      if words == [] {
        return None;
      }
      var bad := HasEmpty(words[1..]);
      if bad {
        return Some(InvalidArgs);
      }
      assert [] + words == words;
      AddedIsInsert(tree, [], words, path);
      AddWords(path, words);
      return None;
    }

    method HasEmpty(words: seq<Word>) returns (bad: bool)
      ensures bad <==> "" in words
    {
      for i := 0 to |words|
        invariant "" !in words[..i]
      {
        if words[i] == "" {
          return true;
        }
      }
      return false;
    }

    method AddWords(path: Path, words: seq<Word>)
      requires Linked() && WellFormed(tree) && words != []
      modifies this, live
      ensures Linked() && fresh(live - old(live))
      ensures tree == Added(old(tree), [], words, path)
    {
      var header: TrieNode;
      if words[0] !in headers {
        assert Child([], words[0]) !in tree;
        AddKidIsHarmless(tree, [], words[0]);
        header := NewHeader(words[0]);
      } else {
        header := headers[words[0]];
      }
      HeaderAdd(header, path, words[1..]);
    }

    /** Walks down from the header, making the nodes that are missing, and sets the last one. */
    method HeaderAdd(header: TrieNode, path: Path, words: seq<Word>)
      requires Linked() && WellFormed(tree) && header in live
      modifies this`tree, this`live, this`at, live
      ensures Linked() && fresh(live - old(live))
      ensures tree == Added(old(tree), header.words, words, path)
    {
      var last := header;
      for i := 0 to |words|
        invariant Linked() && WellFormed(tree) && fresh(live - old(live)) && last in live
        invariant Added(tree, last.words, words[i..], path) == Added(old(tree), header.words, words, path)
      {
        assert words[i..][1..] == words[i + 1..];
        last := Descend(last, words[i]);
      }
      SetNode(last, path);
    }

    /** The child at a word, made if it is missing. */
    method Descend(node: TrieNode, w: Word) returns (child: TrieNode)
      requires Linked() && WellFormed(tree) && node in live
      modifies this`tree, this`live, this`at, node`nodes
      ensures Linked() && WellFormed(tree)
      ensures live == old(live) || (fresh(child) && live == old(live) + {child})
      ensures child in live && child.words == Child(node.words, w) && child.words in tree
      ensures tree == if w in old(tree)[node.words].kids then old(tree) else AddKid(old(tree), node.words, w)
    {
      if w !in node.nodes {
        assert Child(node.words, w) !in tree;
        AddKidIsHarmless(tree, node.words, w);
        child := NewNode(node, w);
      } else {
        child := node.nodes[w];
      }
    }

    method Delete(path: Path) returns (err: Option<Error>)
      requires Valid()
      modifies this, live
      ensures Valid() && live <= old(live)
      ensures Stored(tree) == old(Stored(tree)) - {Strip(path)}
      ensures err == None <==> Strip(path) != [] && Strip(path)[0] in old(headers)
    {
      var words := Strip(path);
      if words == [] {
        return Some(NotFound);
      }
      assert [] + words == words;
      DeletedIsRemove(tree, [], words);
      if words[0] !in headers {
        return Some(NotFound);
      }
      WalksAgree(tree, words);
      DeleteWords(words);
      return None;
    }

    method DeleteWords(words: seq<Word>)
      requires Linked() && words != [] && words[0] in headers
      modifies this, live
      ensures Linked() && live <= old(live)
      ensures tree == HeaderlessDeleted(old(tree), words)
    {
      var header := headers[words[0]];
      HeaderDelete(header, words[1..]);
      if header.nodes == map[] && !header.isSet {
        DropHeader(words[0]);
      }
    }

    method HeaderDelete(header: TrieNode, words: seq<Word>)
      requires Linked() && header in live
      modifies this`tree, this`live, live`nodes, live`isSet
      ensures Linked() && header in live && live <= old(live) && unchanged(`headers)
      ensures header.words in old(tree) && tree == HeaderDeleted(old(tree), header.words, words)
    {
      if words == [] {
        UnsetNode(header);
      } else if words[0] in header.nodes {
        var c := header.nodes[words[0]];
        var err := NodeDelete(c, words[1..]);
        Tidy(header, words[0]);
      }
    }

    method NodeDelete(node: TrieNode, words: seq<Word>) returns (err: Option<Error>)
      requires Linked() && node in live
      modifies this`tree, this`live, live`nodes, live`isSet
      ensures Linked() && node in live && live <= old(live) && unchanged(`headers)
      ensures forall n | n in old(live) && |n.words| < |node.words| :: n in live && unchanged(n`nodes)
      ensures node.words in old(tree) && Deleted(old(tree), node.words, words) == (tree, err == None)
      decreases |words|
    {
      if words == [] {
        UnsetNode(node);
        return None;
      } else if words[0] !in node.nodes {
        return Some(NotFound);
      } else {
        var c := node.nodes[words[0]];
        err := NodeDelete(c, words[1..]);
        if err.Some? {
          return err;
        }
        Tidy(node, words[0]);
        return None;
      }
    }

    /** Drops a child that is not set and has no children of its own. */
    method Tidy(node: TrieNode, w: Word)
      requires Linked() && node in live && w in node.nodes
      modifies this`tree, this`live, node`nodes
      ensures Linked() && node in live && live <= old(live) && live >= old(live) - {old(node.nodes[w])}
      ensures unchanged(`headers)
      ensures tree == Tidied(old(tree), node.words, w)
    {
      var c := node.nodes[w];
      if c.nodes == map[] && !c.isSet {
        OneParent(node, w);
        DropNode(node, w);
      }
    }

    method Search(path: Path) returns (matches: seq<Path>)
      requires Valid()
      ensures Answers(Stored(tree), QueryOf(path), matches)
      ensures forall words | Spells(path, words) ::
                multiset(matches) == multiset(set p | p in Stored(tree) && words < p :: Stored(tree)[p])
      ensures |path| >= 2 && path[0] == "" && path[1] == "" ==>
                multiset(matches) == multiset(set p | p in Stored(tree) && [] < p :: Stored(tree)[p])
    {
      QueryMeans(path);
      var words := Strip(path);
      if words == [] {
        return [];
      }
      if words[0] == "" {
        ExtensionsAreBelow(tree, []);
        matches := CollectAll(headers, [], []);
      } else if words[0] !in headers {
        QueryStartsAt(path);
        NothingExtendsAbsent(tree, QueryOf(path).words, 1);
        return [];
      } else {
        QueryStartsAt(path);
        matches := HeaderSearch(headers[words[0]], words[1..]);
      }
    }

    method HeaderSearch(header: TrieNode, words: seq<Word>) returns (matches: seq<Path>)
      requires Linked() && WellFormed(tree) && header in live
      ensures Answers(Stored(tree), Extensions(header.words + Core(words)), matches)
    {
      ghost var core := Core(words);
      var last := header;
      var i := 0;
      while i < |words|
        invariant i <= |core| && last in live && last.words == header.words + core[..i]
      {
        var v := words[i];
        if i == |words| - 1 && v == "" {
          break;
        }
        assert header.words + core[..i + 1] == Child(last.words, v);
        if v !in last.nodes {
          assert (header.words + core)[..|last.words| + 1] == Child(last.words, v);
          NothingExtendsAbsent(tree, header.words + core, |last.words| + 1);
          return [];
        }
        last := last.nodes[v];
        i := i + 1;
      }
      assert core[..i] == core;
      ExtensionsAreBelow(tree, last.words);
      matches := CollectAll(last.nodes, last.words, []);
    }

    /** Appends the paths stored at or below a node, in the order the maps happen to be visited. */
    method Collect(node: TrieNode, result: seq<Path>) returns (r: seq<Path>)
      requires Linked() && WellFormed(tree) && node in live
      ensures multiset(r) == multiset(result) + multiset(Under(tree, node.words))
      decreases Region(tree, node.words), 1
    {
      var own := result;
      if node.isSet {
        own := result + [node.path];
      }
      r := CollectAll(node.nodes, node.words, own);
      VisitedHere(tree, node.words, result, own, r);
    }

    method CollectAll(nodes: map<Word, TrieNode>, ghost p: seq<Word>, result: seq<Path>) returns (r: seq<Path>)
      requires Linked() && WellFormed(tree) && p in tree
      requires forall w | w in nodes :: nodes[w] in live && nodes[w].words == Child(p, w)
      ensures multiset(r) == multiset(result) + multiset(Below(tree, p, nodes.Keys))
      decreases Region(tree, p), 0
    {
      r := result;
      var todo := nodes.Keys;
      ghost var done := {};
      assert Below(tree, p, done) == {};
      while todo != {}
        invariant todo <= nodes.Keys && done == nodes.Keys - todo
        invariant multiset(r) == multiset(result) + multiset(Below(tree, p, done))
        decreases todo
      {
        var w :| w in todo;
        RegionShrinks(tree, p, w);
        ghost var before := r;
        r := Collect(nodes[w], r);
        VisitedOneMore(tree, p, done, w, result, before, r);
        todo, done := todo - {w}, done + {w};
      }
    }
  }
}
