/**
 * QuickFixHelper.nextToken / previousToken: the token just after, or just
 * before, the text of a subtree. The syntax tree is an arena: a node is an
 * index into a sequence, and holds the indices of its parent and children.
 */
module TokenLocator {
  import opened Wrappers
  import opened Syntax

  /**
   * One tree node. `firstToken` and `lastToken` are None for an empty
   * production (a subtree that holds no token at all).
   */
  datatype Node = Node(
    parent: Option<nat>,
    children: seq<nat>,
    firstToken: Option<Token>,
    lastToken: Option<Token>)

  type Tree = seq<Node>

  /**
   * The links around node `n` are those of a parsed tree: its parent comes
   * earlier in the arena and lists it as a child; its children are distinct
   * nodes that name it as their parent.
   */
  ghost predicate NodeLinked(t: Tree, n: nat)
    requires n < |t|
  {
    var cs := t[n].children;
    && (t[n].parent.Some? ==> t[n].parent.value < n && n in t[t[n].parent.value].children)
    && (forall i | 0 <= i < |cs| :: cs[i] < |t| && t[cs[i]].parent == Some(n))
    && (forall i, j | 0 <= i < j < |cs| :: cs[i] != cs[j])
  }

  /**
   * The tokens of the children of `n` lie within its own and are laid out in
   * source order: an earlier sibling ends before a later one starts.
   */
  ghost predicate NodeTokensOrdered(t: Tree, n: nat)
    requires n < |t| && NodeLinked(t, n)
  {
    var cs := t[n].children;
    && (forall i | 0 <= i < |cs| ::
          && (t[cs[i]].firstToken.Some? ==>
                t[n].firstToken.Some? && AtOrBefore(t[n].firstToken.value, t[cs[i]].firstToken.value))
          && (t[cs[i]].lastToken.Some? ==>
                t[n].lastToken.Some? && AtOrBefore(t[cs[i]].lastToken.value, t[n].lastToken.value)))
    && (forall i, j | 0 <= i < j < |cs| ::
          t[cs[i]].lastToken.Some? && t[cs[j]].firstToken.Some? ==>
            AtOrBefore(t[cs[i]].lastToken.value, t[cs[j]].firstToken.value))
  }

  /**
   * The shape of a parsed tree, all the token walks rely on. Parents precede
   * their children in the arena, so walking to the parent always reaches a
   * smaller index (the root at last).
   */
  ghost predicate Linked(t: Tree) {
    forall n | 0 <= n < |t| :: NodeLinked(t, n)
  }

  /** The token spans of a parsed tree nest and follow source order. */
  ghost predicate TokensOrdered(t: Tree)
    requires Linked(t)
  {
    forall n | 0 <= n < |t| :: NodeTokensOrdered(t, n)
  }

  ghost predicate WellFormed(t: Tree) {
    Linked(t) && TokensOrdered(t)
  }

  /** Children of a node are themselves nodes of the tree. */
  ghost predicate ChildrenIn(t: Tree, cs: seq<nat>) {
    forall i | 0 <= i < |cs| :: cs[i] < |t|
  }

  /** List.indexOf: the first position of `n`. */
  function IndexOf(cs: seq<nat>, n: nat): (k: nat)
    requires n in cs
    ensures k < |cs| && cs[k] == n
    ensures forall i :: 0 <= i < k ==> cs[i] != n
  {
    if cs[0] == n then 0 else 1 + IndexOf(cs[1..], n)
  }

  /**
   * The forward sibling scan of nextToken: the first token of the first
   * child at position `from` or later that has one.
   */
  function FirstTokenFrom(t: Tree, cs: seq<nat>, from: nat): (r: Option<Token>)
    requires ChildrenIn(t, cs)
    ensures r.None? <==> forall i :: from <= i < |cs| ==> t[cs[i]].firstToken.None?
    ensures r.Some? ==> exists j :: from <= j < |cs| && r == t[cs[j]].firstToken
                                  && forall i :: from <= i < j ==> t[cs[i]].firstToken.None?
    decreases |cs| - from
  {
    if from >= |cs| then None
    else if t[cs[from]].firstToken.Some? then t[cs[from]].firstToken
    else FirstTokenFrom(t, cs, from + 1)
  }

  /**
   * The backward sibling scan of previousToken: the last token of the
   * nearest child before position `before` that has one.
   */
  function LastTokenBefore(t: Tree, cs: seq<nat>, before: nat): (r: Option<Token>)
    requires ChildrenIn(t, cs) && before <= |cs|
    ensures r.None? <==> forall i :: 0 <= i < before ==> t[cs[i]].lastToken.None?
    ensures r.Some? ==> exists j :: 0 <= j < before && r == t[cs[j]].lastToken
                                  && forall i :: j < i < before ==> t[cs[i]].lastToken.None?
  {
    if before == 0 then None
    else if t[cs[before - 1]].lastToken.Some? then t[cs[before - 1]].lastToken
    else LastTokenBefore(t, cs, before - 1)
  }

  /** What a node with a parent may rely on: its own links and its parent's. */
  lemma LinksOf(t: Tree, n: nat)
    requires Linked(t) && n < |t| && t[n].parent.Some?
    ensures NodeLinked(t, n) && NodeLinked(t, t[n].parent.value)
    ensures ChildrenIn(t, t[t[n].parent.value].children)
  {
    assert NodeLinked(t, n);
    assert NodeLinked(t, t[n].parent.value);
  }

  /** In a tree whose tokens are ordered, so are those of the children of `p`. */
  lemma TokensOrderedAt(t: Tree, p: nat)
    requires Linked(t) && p < |t|
    ensures NodeLinked(t, p)
    ensures TokensOrdered(t) ==> NodeTokensOrdered(t, p)
  {
    assert NodeLinked(t, p);
    if TokensOrdered(t) {
      assert NodeTokensOrdered(t, p);
    }
  }

  /**
   * The token just after the text of node `n`. A node with a token of its
   * own gets a token that does not start before its last token.
   */
  function NextToken(t: Tree, n: nat): (r: Option<Token>)
    requires Linked(t) && n < |t|
    ensures TokensOrdered(t) && t[n].lastToken.Some? ==> r.Some? && AtOrBefore(t[n].lastToken.value, r.value)
    decreases n
  {
    match t[n].parent
    case None => t[n].lastToken
    case Some(p) =>
      LinksOf(t, n);
      TokensOrderedAt(t, p);
      var cs := t[p].children;
      if n == cs[|cs| - 1] then
        NextToken(t, p)
      else
        var k := IndexOf(cs, n);
        match FirstTokenFrom(t, cs, k + 1)
        case Some(token) => Some(token)
        case None => t[n].lastToken
  }

  /**
   * The token just before the text of node `n`. A node with a token of its
   * own gets a token that does not start after its first token.
   */
  function PreviousToken(t: Tree, n: nat): (r: Option<Token>)
    requires Linked(t) && n < |t|
    ensures TokensOrdered(t) && t[n].firstToken.Some? ==> r.Some? && AtOrBefore(r.value, t[n].firstToken.value)
    decreases n
  {
    match t[n].parent
    case None => t[n].firstToken
    case Some(p) =>
      LinksOf(t, n);
      TokensOrderedAt(t, p);
      var cs := t[p].children;
      if n == cs[0] then
        PreviousToken(t, p)
      else
        var k := IndexOf(cs, n);
        match LastTokenBefore(t, cs, k)
        case Some(token) => Some(token)
        case None => PreviousToken(t, p)
  }

  /** At the root nothing follows or precedes: its own last and first tokens are returned. */
  lemma RootTokens(t: Tree, n: nat)
    requires Linked(t) && n < |t| && t[n].parent.None?
    ensures NextToken(t, n) == t[n].lastToken
    ensures PreviousToken(t, n) == t[n].firstToken
  {
  }

  /** The last child has the next token of its parent; the first child the previous token of its parent. */
  lemma TokensOfEdgeChild(t: Tree, n: nat, p: nat)
    requires Linked(t) && n < |t| && t[n].parent == Some(p) && p < |t|
    ensures |t[p].children| > 0
    ensures n == t[p].children[|t[p].children| - 1] ==> NextToken(t, n) == NextToken(t, p)
    ensures n == t[p].children[0] ==> PreviousToken(t, n) == PreviousToken(t, p)
  {
    LinksOf(t, n);
  }

  /**
   * A child that is not the last one gets the first token of the earliest
   * following sibling that has one; when every following sibling is empty
   * it gets its own last token, without climbing to its parent.
   */
  lemma NextTokenOfInnerChild(t: Tree, n: nat, p: nat, k: nat)
    requires Linked(t) && n < |t| && t[n].parent == Some(p) && p < |t|
    requires k + 1 < |t[p].children| && t[p].children[k] == n
    ensures var cs := t[p].children;
      && (forall i :: 0 <= i < |cs| ==> cs[i] < |t|)
      && ((exists j :: k < j < |cs| && t[cs[j]].firstToken.Some?
             && (forall i :: k < i < j ==> t[cs[i]].firstToken.None?)
             && NextToken(t, n) == t[cs[j]].firstToken)
          || ((forall i :: k < i < |cs| ==> t[cs[i]].firstToken.None?)
             && NextToken(t, n) == t[n].lastToken))
  {
    var cs := t[p].children;
    LinksOf(t, n);
    assert IndexOf(cs, n) == k;
    var r := FirstTokenFrom(t, cs, k + 1);
    assert NextToken(t, n) == if r.Some? then r else t[n].lastToken;
    if r.Some? {
      var j :| k + 1 <= j < |cs| && r == t[cs[j]].firstToken
               && forall i :: k + 1 <= i < j ==> t[cs[i]].firstToken.None?;
      assert k < j < |cs| && t[cs[j]].firstToken.Some?;
    }
  }

  /**
   * A child that is not the first one gets the last token of the nearest
   * preceding sibling that has one; when every preceding sibling is empty it
   * gets the previous token of its parent, not a token of its own.
   */
  lemma PreviousTokenOfInnerChild(t: Tree, n: nat, p: nat, k: nat)
    requires Linked(t) && n < |t| && t[n].parent == Some(p) && p < |t|
    requires 0 < k < |t[p].children| && t[p].children[k] == n
    ensures var cs := t[p].children;
      && (forall i :: 0 <= i < |cs| ==> cs[i] < |t|)
      && ((exists j :: 0 <= j < k && t[cs[j]].lastToken.Some?
             && (forall i :: j < i < k ==> t[cs[i]].lastToken.None?)
             && PreviousToken(t, n) == t[cs[j]].lastToken)
          || ((forall i :: 0 <= i < k ==> t[cs[i]].lastToken.None?)
             && PreviousToken(t, n) == PreviousToken(t, p)))
  {
    var cs := t[p].children;
    LinksOf(t, n);
    assert IndexOf(cs, n) == k;
    var r := LastTokenBefore(t, cs, k);
    assert PreviousToken(t, n) == if r.Some? then r else PreviousToken(t, p);
    if r.Some? {
      var j :| 0 <= j < k && r == t[cs[j]].lastToken
               && forall i :: j < i < k ==> t[cs[i]].lastToken.None?;
      assert t[cs[j]].lastToken.Some?;
    }
  }

  /**
   * Empty productions at three nested levels, each the earlier sibling of
   * the node that leads down to `y`:
   *   0: root [1, 2], 1: `x`, 2: [3, 4], 3: empty, 4: [5, 6], 5: empty,
   *   6: [7, 8], 7: empty, 8: `y`
   */
  function NestedEmptyProductions(): Tree {
    var x := Token("x", 1, 0);
    var y := Token("y", 1, 2);
    [ Node(None, [1, 2], Some(x), Some(y)),
      Node(Some(0), [], Some(x), Some(x)),
      Node(Some(0), [3, 4], Some(y), Some(y)),
      Node(Some(2), [], None, None),
      Node(Some(2), [5, 6], Some(y), Some(y)),
      Node(Some(4), [], None, None),
      Node(Some(4), [7, 8], Some(y), Some(y)),
      Node(Some(6), [], None, None),
      Node(Some(6), [], Some(y), Some(y)) ]
  }

  lemma NestedEmptyProductionsLinked()
    ensures Linked(NestedEmptyProductions())
  {
    var t := NestedEmptyProductions();
    forall n | 0 <= n < |t| ensures NodeLinked(t, n) {
      if n == 0 {
      } else if n == 1 {
      } else if n == 2 {
      } else if n == 3 {
      } else if n == 4 {
      } else if n == 5 {
      } else if n == 6 {
      } else if n == 7 {
      } else {
      }
    }
  }

  lemma NestedEmptyProductionsWellFormed()
    ensures WellFormed(NestedEmptyProductions())
  {
    var t := NestedEmptyProductions();
    NestedEmptyProductionsLinked();
    forall n | 0 <= n < |t| ensures NodeTokensOrdered(t, n) {
      if n == 0 {
      } else if n == 2 {
      } else if n == 4 {
      } else if n == 6 {
      } else {
        assert t[n].children == [];
      }
    }
  }

  /**
   * The token before `y` is found by climbing three times, from node 8 to
   * 6, 4 and 2, past the empty earlier siblings 7, 5 and 3, and then
   * stepping back to `x`.
   */
  lemma PreviousTokenAcrossNestedEmptyProductions()
    ensures WellFormed(NestedEmptyProductions())
    ensures PreviousToken(NestedEmptyProductions(), 8) == Some(Token("x", 1, 0))
  {
    var t := NestedEmptyProductions();
    NestedEmptyProductionsWellFormed();
    assert PreviousToken(t, 2) == Some(Token("x", 1, 0));
    assert PreviousToken(t, 4) == Some(Token("x", 1, 0));
    assert PreviousToken(t, 6) == Some(Token("x", 1, 0));
  }
}
