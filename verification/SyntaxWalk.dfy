/** The walk over a script's syntax tree that collects its importScripts calls
    (frontend/extension-assets/extension_webview_worker_modules.ts). */
module SyntaxWalk {
  import opened Wrappers
  import opened Splicing

  /** The node types the walk inspects; every other type is `Other`. A member expression has its object and
      property as children, a call its callee and then its arguments. */
  datatype Kind = Identifier(name: string) | StringLiteral(value: string) | Member(computed: bool) | Call | Other

  datatype Ast = Ast(kind: Kind, span: Span, children: seq<Ast>)

  // Whether an enclosing scope among the ancestors binds a name.
  type Binder = (string, seq<Ast>) -> bool

  predicate NamesImportScripts(property: Ast, computed: bool) {
    property.kind == if computed then StringLiteral("importScripts") else Identifier("importScripts")
  }

  /** Recognizes an unshadowed importScripts, bare or as a member of self or globalThis. */
  predicate IsGlobalImportScripts(callee: Ast, ancestors: seq<Ast>, binds: Binder) {
    match callee.kind
    case Identifier(name) => name == "importScripts" && !binds(name, ancestors)
    case Member(computed) =>
      && |callee.children| == 2
      && (callee.children[0].kind == Identifier("self") || callee.children[0].kind == Identifier("globalThis"))
      && !binds(callee.children[0].kind.name, ancestors)
      && NamesImportScripts(callee.children[1], computed)
    case _ => false
  }

  /** An importScripts call: its span, and its arguments if all are string literals. */
  datatype Site = Site(span: Span, specifiers: Option<seq<string>>)

  function Specifiers(arguments: seq<Ast>): Option<seq<string>> {
    if forall k | 0 <= k < |arguments| :: arguments[k].kind.StringLiteral?
    then Some(seq(|arguments|, k requires 0 <= k < |arguments| && arguments[k].kind.StringLiteral? =>
                    arguments[k].kind.value))
    else None
  }

  /** A node of the tree with the path above it. */
  datatype Entry = Entry(node: Ast, ancestors: seq<Ast>)

  function ChildEntries(entry: Entry): (entries: seq<Entry>)
    ensures |entries| == |entry.node.children|
    ensures forall k | 0 <= k < |entries| :: entries[k].node == entry.node.children[k]
  {
    var children := entry.node.children;
    seq(|children|, k requires 0 <= k < |children| => Entry(children[k], entry.ancestors + [entry.node]))
  }

  function OwnSites(entry: Entry, binds: Binder): seq<Site> {
    var node := entry.node;
    if node.kind.Call? && node.children != [] && IsGlobalImportScripts(node.children[0], entry.ancestors, binds)
    then [Site(node.span, Specifiers(node.children[1..]))]
    else []
  }

  /** The number of nodes of a tree. */
  function Size(node: Ast): (size: nat)
    ensures size > 0
  {
    1 + SizeAll(node.children)
  }

  function SizeAll(nodes: seq<Ast>): nat {
    if nodes == [] then 0 else Size(nodes[0]) + SizeAll(nodes[1..])
  }

  function StackSize(pending: seq<Entry>): nat {
    if pending == [] then 0 else StackSize(pending[..|pending| - 1]) + Size(pending[|pending| - 1].node)
  }

  lemma {:induction false} StackSizeConcat(a: seq<Entry>, b: seq<Entry>)
    ensures StackSize(a + b) == StackSize(a) + StackSize(b)
  {
    hide Size;
    if b == [] {
      assert a + b == a;
    } else {
      assert (a + b)[..|a + b| - 1] == a + b[..|b| - 1];
      StackSizeConcat(a, b[..|b| - 1]);
    }
  }

  lemma {:induction false} StackSizeOf(pending: seq<Entry>, nodes: seq<Ast>)
    requires |pending| == |nodes| && forall k | 0 <= k < |nodes| :: pending[k].node == nodes[k]
    ensures StackSize(pending) == SizeAll(nodes)
    decreases |nodes|
  {
    hide Size;
    if nodes != [] {
      StackSizeOf(pending[1..], nodes[1..]);
      assert pending == [pending[0]] + pending[1..];
      StackSizeConcat([pending[0]], pending[1..]);
      assert StackSize([pending[0]]) == StackSize([]) + Size(pending[0].node);
    }
  }

  // Replacing a node on the stack by its children makes the stack one smaller.
  lemma PopShrinks(rest: seq<Entry>, entry: Entry)
    ensures StackSize(rest + ChildEntries(entry)) < StackSize(rest + [entry])
  {
    StackSizeConcat(rest, ChildEntries(entry));
    StackSizeOf(ChildEntries(entry), entry.node.children);
    assert (rest + [entry])[..|rest|] == rest;
  }

  /** The calls below the entries of a stack, in the order the walk meets them: last entry first. */
  function SitesOfStack(pending: seq<Entry>, binds: Binder): seq<Site>
    decreases StackSize(pending)
  {
    if pending == [] then []
    else
      var rest, entry := pending[..|pending| - 1], pending[|pending| - 1];
      assert pending == rest + [entry];
      PopShrinks(rest, entry);
      OwnSites(entry, binds) + SitesOfStack(rest + ChildEntries(entry), binds)
  }

  /** The calls of a whole tree; an error when an argument is not a string literal. */
  function ParsedCalls(root: Ast, binds: Binder): Result<seq<Site>, string> {
    var sites := SitesOfStack([Entry(root, [])], binds);
    if forall k | 0 <= k < |sites| :: sites[k].specifiers.Some? then Ok(sites)
    else Err("classic Worker importScripts arguments must be string literals")
  }

  method VisitTree(root: Ast, binds: Binder) returns (result: Result<seq<Site>, string>)
    ensures result == ParsedCalls(root, binds)
  {
    hide OwnSites, ChildEntries;
    var pending := [Entry(root, [])];
    var calls: seq<Site> := [];
    while pending != []
      invariant calls + SitesOfStack(pending, binds) == SitesOfStack([Entry(root, [])], binds)
      invariant forall k | 0 <= k < |calls| :: calls[k].specifiers.Some?
      decreases StackSize(pending)
    {
      var rest, entry := pending[..|pending| - 1], pending[|pending| - 1];
      assert pending == rest + [entry];
      PopShrinks(rest, entry);
      var own := OwnSites(entry, binds);
      ghost var whole := SitesOfStack([Entry(root, [])], binds);
      assert whole == (calls + own) + SitesOfStack(rest + ChildEntries(entry), binds);
      if k :| 0 <= k < |own| && own[k].specifiers.None? {
        assert whole[|calls| + k] == own[k];
        return Err("classic Worker importScripts arguments must be string literals");
      }
      calls := calls + own;
      pending := rest + ChildEntries(entry);
    }
    EmptyStack(binds);
    assert calls + [] == calls;
    result := Ok(calls);
  }

  // -------------------------------------------------------------------------
  // The walk collects exactly the calls of the tree
  // -------------------------------------------------------------------------

  // `to` is `from` or lies below it, with the path between them appended to the ancestors.
  ghost predicate Reaches(from: Entry, to: Entry)
    decreases from.node
  {
    from == to || exists k :: 0 <= k < |from.node.children|
                              && Reaches(Entry(from.node.children[k], from.ancestors + [from.node]), to)
  }

  // The callee is importScripts, or self.importScripts, globalThis.importScripts, self["importScripts"] or
  // globalThis["importScripts"], and no scope around the call binds the name it begins with.
  ghost predicate IsImportScripts(callee: Ast, ancestors: seq<Ast>, binds: Binder) {
    || (callee.kind == Identifier("importScripts") && !binds("importScripts", ancestors))
    || (&& |callee.children| == 2
        && (|| (callee.kind == Member(false) && callee.children[1].kind == Identifier("importScripts"))
            || (callee.kind == Member(true) && callee.children[1].kind == StringLiteral("importScripts")))
        && (|| (callee.children[0].kind == Identifier("self") && !binds("self", ancestors))
            || (callee.children[0].kind == Identifier("globalThis") && !binds("globalThis", ancestors))))
  }

  // A node has the call of its own exactly when it calls importScripts; the specifiers are the values of its
  // arguments, in their order, and there are some exactly when every argument is a string literal.
  lemma OwnSitesAre(entry: Entry, binds: Binder, site: Site)
    ensures site in OwnSites(entry, binds) <==>
              var children := entry.node.children;
              && entry.node.kind == Call && children != []
              && IsImportScripts(children[0], entry.ancestors, binds)
              && site.span == entry.node.span
              && (site.specifiers.Some? <==> forall k | 1 <= k < |children| :: children[k].kind.StringLiteral?)
              && (site.specifiers.Some? ==>
                    && |site.specifiers.value| == |children| - 1
                    && forall k | 1 <= k < |children| :: children[k].kind == StringLiteral(site.specifiers.value[k - 1]))
  {
    var children := entry.node.children;
    if children != [] {
      SpecifiersAre(children, site.specifiers);
      hide Specifiers;
    }
  }

  lemma SpecifiersAre(children: seq<Ast>, specifiers: Option<seq<string>>)
    requires children != []
    ensures Specifiers(children[1..]) == specifiers <==>
              && (specifiers.Some? <==> forall k | 1 <= k < |children| :: children[k].kind.StringLiteral?)
              && (specifiers.Some? ==>
                    && |specifiers.value| == |children| - 1
                    && forall k | 1 <= k < |children| :: children[k].kind == StringLiteral(specifiers.value[k - 1]))
  {
    var arguments := children[1..];
    assert forall k | 1 <= k < |children| :: children[k] == arguments[k - 1];
    assert forall k | 0 <= k < |arguments| :: arguments[k] == children[k + 1];
    if specifiers.Some? && Specifiers(arguments).Some? && |specifiers.value| == |arguments|
       && forall k | 1 <= k < |children| :: children[k].kind == StringLiteral(specifiers.value[k - 1]) {
      assert specifiers.value == Specifiers(arguments).value;
    }
  }

  // `site` is an importScripts call at or below `entry`.
  ghost predicate CallBelow(entry: Entry, binds: Binder, site: Site) {
    exists to :: Reaches(entry, to) && site in OwnSites(to, binds)
  }

  ghost predicate CallInStack(pending: seq<Entry>, binds: Binder, site: Site) {
    exists k :: 0 <= k < |pending| && CallBelow(pending[k], binds, site)
  }

  lemma CallBelowUnfolds(entry: Entry, binds: Binder, site: Site)
    ensures CallBelow(entry, binds, site)
       <==> site in OwnSites(entry, binds) || CallInStack(ChildEntries(entry), binds, site)
  {
    hide OwnSites;
    if site in OwnSites(entry, binds) {
      assert Reaches(entry, entry);
    }
    assert forall k | 0 <= k < |entry.node.children| ::
        ChildEntries(entry)[k] == Entry(entry.node.children[k], entry.ancestors + [entry.node]);
    if k, to :| 0 <= k < |ChildEntries(entry)| && Reaches(ChildEntries(entry)[k], to) && site in OwnSites(to, binds) {
      assert Reaches(Entry(entry.node.children[k], entry.ancestors + [entry.node]), to);
      assert Reaches(entry, to);
    }
  }

  lemma CallInStackConcat(a: seq<Entry>, b: seq<Entry>, binds: Binder, site: Site)
    ensures CallInStack(a + b, binds, site) <==> CallInStack(a, binds, site) || CallInStack(b, binds, site)
  {
    hide CallBelow;
    assert forall k | 0 <= k < |a| :: (a + b)[k] == a[k];
    assert forall k | 0 <= k < |b| :: (a + b)[|a| + k] == b[k];
  }

  lemma {:induction false} SitesExact(pending: seq<Entry>, binds: Binder, site: Site)
    ensures site in SitesOfStack(pending, binds) <==> CallInStack(pending, binds, site)
    decreases StackSize(pending)
  {
    if pending != [] {
      var rest, entry := pending[..|pending| - 1], pending[|pending| - 1];
      assert pending == rest + [entry];
      hide OwnSites, ChildEntries, CallBelow;
      PopShrinks(rest, entry);
      SitesExact(rest + ChildEntries(entry), binds, site);
      CallInStackConcat(rest, ChildEntries(entry), binds, site);
      CallInStackConcat(rest, [entry], binds, site);
      CallBelowUnfolds(entry, binds, site);
      assert CallInStack([entry], binds, site) <==> CallBelow([entry][0], binds, site);
    }
  }

  // The walk succeeds exactly when every call of the tree has only string literals, and then collects
  // exactly the calls of the tree.
  lemma ParsedCallsExact(root: Ast, binds: Binder)
    ensures ParsedCalls(root, binds).Ok?
       <==> forall site | CallBelow(Entry(root, []), binds, site) :: site.specifiers.Some?
    ensures ParsedCalls(root, binds).Ok? ==>
              forall site :: site in ParsedCalls(root, binds).value <==> CallBelow(Entry(root, []), binds, site)
  {
    hide SitesOfStack, CallBelow;
    var whole := [Entry(root, [])];
    var sites := SitesOfStack(whole, binds);
    forall site
      ensures site in sites <==> CallBelow(Entry(root, []), binds, site)
    {
      SitesExact(whole, binds, site);
      assert CallInStack(whole, binds, site) <==> CallBelow(whole[0], binds, site);
    }
  }

  // -------------------------------------------------------------------------
  // Accepted spans are pairwise disjoint
  // -------------------------------------------------------------------------

  // What the parser guarantees of spans: they may be empty (an empty program, the text between two
  // interpolations of a template literal), but a call is not; children lie inside their parent, and two children
  // of one node do not overlap unless one of them is an identifier (as in a shorthand property).
  ghost predicate WellSpanned(node: Ast) {
    && node.span.start <= node.span.end
    && (node.kind.Call? ==> node.span.start < node.span.end)
    && (node.kind.Identifier? || node.kind.StringLiteral? ==> node.children == [])
    && (forall k | 0 <= k < |node.children| ::
          node.span.start <= node.children[k].span.start && node.children[k].span.end <= node.span.end && WellSpanned(node.children[k]))
    && (forall i, j | 0 <= i < j < |node.children| ::
          Apart(node.children[i].span, node.children[j].span)
          || node.children[i].kind.Identifier? || node.children[j].kind.Identifier?)
  }

  ghost predicate PairwiseApart(sites: seq<Site>) {
    forall i, j | 0 <= i < j < |sites| :: Apart(sites[i].span, sites[j].span)
  }

  ghost predicate AllLiteral(sites: seq<Site>) {
    forall k | 0 <= k < |sites| :: sites[k].specifiers.Some?
  }

  ghost predicate Within(sites: seq<Site>, node: Ast) {
    forall k | 0 <= k < |sites| :: node.span.start <= sites[k].span.start < sites[k].span.end <= node.span.end
  }

  lemma {:induction false} SitesConcat(a: seq<Entry>, b: seq<Entry>, binds: Binder)
    ensures SitesOfStack(a + b, binds) == SitesOfStack(b, binds) + SitesOfStack(a, binds)
    decreases StackSize(b)
  {
    hide OwnSites, ChildEntries;
    if b == [] {
      assert a + b == a;
    } else {
      var rest, entry := b[..|b| - 1], b[|b| - 1];
      assert b == rest + [entry];
      assert (a + b)[..|a + b| - 1] == a + rest;
      PopShrinks(rest, entry);
      assert (a + rest) + ChildEntries(entry) == a + (rest + ChildEntries(entry));
      SitesConcat(a, rest + ChildEntries(entry), binds);
    }
  }

  /** The calls of one subtree. */
  function SitesBelow(entry: Entry, binds: Binder): seq<Site> {
    SitesOfStack([entry], binds)
  }

  lemma SitesBelowIs(entry: Entry, binds: Binder)
    ensures SitesBelow(entry, binds) == OwnSites(entry, binds) + SitesOfStack(ChildEntries(entry), binds)
  {
    hide OwnSites, ChildEntries;
    assert [entry][..0] + ChildEntries(entry) == ChildEntries(entry);
  }

  // A callee that is recognized, and string literals, contain no call.
  lemma LeafHasNoSites(entry: Entry, binds: Binder)
    requires entry.node.children == [] && !entry.node.kind.Call?
    ensures SitesBelow(entry, binds) == []
  {
    SitesBelowIs(entry, binds);
  }

  lemma {:induction false} NoSitesInStack(pending: seq<Entry>, binds: Binder)
    requires forall k | 0 <= k < |pending| :: SitesBelow(pending[k], binds) == []
    ensures SitesOfStack(pending, binds) == []
    decreases |pending|
  {
    hide SitesOfStack;
    if pending == [] {
      EmptyStack(binds);
    } else {
      var n := |pending| - 1;
      NoSitesInStack(pending[..n], binds);
      assert pending == pending[..n] + [pending[n]];
      SitesConcat(pending[..n], [pending[n]], binds);
    }
  }

  lemma EmptyStack(binds: Binder)
    ensures SitesOfStack([], binds) == []
  {}

  // Below an accepted call with literal arguments there is no further call.
  lemma NothingBelowAccepted(entry: Entry, binds: Binder)
    requires WellSpanned(entry.node)
    requires OwnSites(entry, binds) != [] && OwnSites(entry, binds)[0].specifiers.Some?
    ensures SitesOfStack(ChildEntries(entry), binds) == []
  {
    var node, entries := entry.node, ChildEntries(entry);
    hide SitesOfStack, SitesBelow;
    forall k | 0 <= k < |entries|
      ensures SitesBelow(entries[k], binds) == []
    {
      if k == 0 {
        CalleeHasNoSites(entries[0], entry.ancestors, binds);
      } else {
        assert node.children[1..][k - 1].kind.StringLiteral?;
        LeafHasNoSites(entries[k], binds);
      }
    }
    NoSitesInStack(entries, binds);
  }

  lemma CalleeHasNoSites(entry: Entry, ancestors: seq<Ast>, binds: Binder)
    requires WellSpanned(entry.node) && IsGlobalImportScripts(entry.node, ancestors, binds)
    ensures SitesBelow(entry, binds) == []
  {
    if entry.node.kind.Identifier? {
      LeafHasNoSites(entry, binds);
    } else {
      var entries := ChildEntries(entry);
      LeafHasNoSites(entries[0], binds);
      LeafHasNoSites(entries[1], binds);
      NoSitesInStack(entries, binds);
      SitesBelowIs(entry, binds);
    }
  }

  lemma ConcatApart(a: seq<Site>, b: seq<Site>)
    requires PairwiseApart(a) && PairwiseApart(b)
    requires forall x, y | x in a && y in b :: Apart(x.span, y.span)
    ensures PairwiseApart(a + b)
  {}

  // Children of one node: inside it, and disjoint but for identifiers.
  ghost predicate Siblings(entries: seq<Entry>, parent: Ast) {
    && (forall k | 0 <= k < |entries| ::
          && entries[k].node < parent && WellSpanned(entries[k].node)
          && parent.span.start <= entries[k].node.span.start && entries[k].node.span.end <= parent.span.end)
    && (forall i, j | 0 <= i < j < |entries| ::
          Apart(entries[i].node.span, entries[j].node.span)
          || entries[i].node.kind.Identifier? || entries[j].node.kind.Identifier?)
  }

  lemma ChildrenAreSiblings(entry: Entry)
    requires WellSpanned(entry.node)
    ensures Siblings(ChildEntries(entry), entry.node)
  {
    var node, entries := entry.node, ChildEntries(entry);
    forall i, j | 0 <= i < j < |entries|
      ensures Apart(entries[i].node.span, entries[j].node.span)
              || entries[i].node.kind.Identifier? || entries[j].node.kind.Identifier?
    {
      assert Apart(node.children[i].span, node.children[j].span)
             || node.children[i].kind.Identifier? || node.children[j].kind.Identifier?;
    }
  }

  // The calls of disjoint subtrees are disjoint.
  lemma {:induction false} StackApart(pending: seq<Entry>, parent: Ast, binds: Binder)
    requires Siblings(pending, parent)
    requires AllLiteral(SitesOfStack(pending, binds))
    ensures Within(SitesOfStack(pending, binds), parent) && PairwiseApart(SitesOfStack(pending, binds))
    ensures forall s | s in SitesOfStack(pending, binds) ::
              exists k :: 0 <= k < |pending| && s in SitesBelow(pending[k], binds)
    decreases parent, 0, |pending|
  {
    hide SitesOfStack;
    if pending == [] {
      EmptyStack(binds);
    } else {
      var n := |pending| - 1;
      var rest, entry := pending[..n], pending[n];
      var front, back := SitesOfStack(rest, binds), SitesBelow(entry, binds);
      assert pending == rest + [entry];
      SitesConcat(rest, [entry], binds);
      assert SitesOfStack(pending, binds) == back + front;
      LiteralParts(back, front);
      StackApart(rest, parent, binds);
      TreeApart(entry, binds);
      forall x, y | x in back && y in front
        ensures Apart(x.span, y.span)
      {
        var k :| 0 <= k < |rest| && y in SitesBelow(rest[k], binds);
        if entry.node.kind.Identifier? {
          LeafHasNoSites(entry, binds);
        } else if rest[k].node.kind.Identifier? {
          LeafHasNoSites(rest[k], binds);
        } else {
          SubtreeLiteral(rest, k, binds);
          TreeApart(rest[k], binds);
          assert Apart(pending[k].node.span, entry.node.span);
        }
      }
      ConcatApart(back, front);
    }
  }

  lemma LiteralParts(a: seq<Site>, b: seq<Site>)
    requires AllLiteral(a + b)
    ensures AllLiteral(a) && AllLiteral(b)
  {
    assert forall k | 0 <= k < |a| :: (a + b)[k] == a[k];
    assert forall k | 0 <= k < |b| :: (a + b)[|a| + k] == b[k];
  }

  lemma {:induction false} SubtreeLiteral(pending: seq<Entry>, k: nat, binds: Binder)
    requires k < |pending| && AllLiteral(SitesOfStack(pending, binds))
    ensures AllLiteral(SitesBelow(pending[k], binds))
    decreases |pending|
  {
    hide SitesOfStack;
    var n := |pending| - 1;
    assert pending == pending[..n] + [pending[n]];
    SitesConcat(pending[..n], [pending[n]], binds);
    LiteralParts(SitesBelow(pending[n], binds), SitesOfStack(pending[..n], binds));
    if k < n {
      SubtreeLiteral(pending[..n], k, binds);
    }
  }

  lemma {:induction false} TreeApart(entry: Entry, binds: Binder)
    requires WellSpanned(entry.node) && AllLiteral(SitesBelow(entry, binds))
    ensures Within(SitesBelow(entry, binds), entry.node) && PairwiseApart(SitesBelow(entry, binds))
    decreases entry.node, 1
  {
    hide SitesOfStack, SitesBelow, OwnSites, WellSpanned, Siblings, PairwiseApart, ChildEntries;
    var own, below := OwnSites(entry, binds), SitesOfStack(ChildEntries(entry), binds);
    SitesBelowIs(entry, binds);
    LiteralParts(own, below);
    if own != [] {
      NothingBelowAccepted(entry, binds);
      OwnSiteIs(entry, binds);
      assert SitesBelow(entry, binds) == own;
    } else {
      ChildrenAreSiblings(entry);
      assert SitesBelow(entry, binds) == below;
      hide Within, AllLiteral;
      StackApart(ChildEntries(entry), entry.node, binds);
    }
  }

  lemma OwnSiteIs(entry: Entry, binds: Binder)
    requires WellSpanned(entry.node) && OwnSites(entry, binds) != []
    ensures Within(OwnSites(entry, binds), entry.node) && PairwiseApart(OwnSites(entry, binds))
  {}

  // The spans of the calls that the walk accepts are nonempty, lie in the root, and are pairwise disjoint.
  lemma CallsAreDisjoint(root: Ast, binds: Binder)
    requires WellSpanned(root) && ParsedCalls(root, binds).Ok?
    ensures Within(ParsedCalls(root, binds).value, root) && PairwiseApart(ParsedCalls(root, binds).value)
  {
    TreeApart(Entry(root, []), binds);
  }

  // -------------------------------------------------------------------------
  // The smallest scripts
  // -------------------------------------------------------------------------

  lemma LoneNode(root: Ast, binds: Binder)
    requires root.children == [] && !root.kind.Call?
    ensures ParsedCalls(root, binds) == Ok([])
  {
    LeafHasNoSites(Entry(root, []), binds);
  }

  // A node that is no call and has one child has the calls of that child.
  lemma OnlyChild(entry: Entry, child: Ast, binds: Binder)
    requires entry.node.children == [child] && !entry.node.kind.Call?
    ensures SitesBelow(entry, binds) == SitesBelow(Entry(child, entry.ancestors + [entry.node]), binds)
  {
    SitesBelowIs(entry, binds);
    assert ChildEntries(entry) == [Entry(child, entry.ancestors + [entry.node])];
  }

  lemma CallOfLeaf(entry: Entry, specifier: string, binds: Binder)
    requires entry.node.kind.Call? && |entry.node.children| == 2
    requires entry.node.children[0].kind == Identifier("importScripts") && entry.node.children[0].children == []
    requires entry.node.children[1].kind == StringLiteral(specifier) && entry.node.children[1].children == []
    requires !binds("importScripts", entry.ancestors)
    ensures SitesBelow(entry, binds) == [Site(entry.node.span, Some([specifier]))]
  {
    var entries := ChildEntries(entry);
    assert Specifiers(entry.node.children[1..]).value == [specifier];
    LeafHasNoSites(entries[0], binds);
    LeafHasNoSites(entries[1], binds);
    NoSitesInStack(entries, binds);
    SitesBelowIs(entry, binds);
  }

  lemma ParsedCallsIs(root: Ast, binds: Binder)
    requires AllLiteral(SitesBelow(Entry(root, []), binds))
    ensures ParsedCalls(root, binds) == Ok(SitesBelow(Entry(root, []), binds))
  {}

  // A script that is one importScripts call of one literal has that call.
  lemma LoneCall(root: Ast, statement: Ast, call: Ast, specifier: string, binds: Binder)
    requires root.kind == Other && root.children == [statement]
    requires statement.kind == Other && statement.children == [call]
    requires call.kind == Call && |call.children| == 2
    requires call.children[0].kind == Identifier("importScripts") && call.children[0].children == []
    requires call.children[1].kind == StringLiteral(specifier) && call.children[1].children == []
    requires !binds("importScripts", [root, statement])
    ensures ParsedCalls(root, binds) == Ok([Site(call.span, Some([specifier]))])
  {
    hide SitesBelow, ChildEntries, OwnSites;
    OnlyChild(Entry(root, []), statement, binds);
    OnlyChild(Entry(statement, [root]), call, binds);
    assert [] + [root] == [root] && [root] + [statement] == [root, statement];
    CallOfLeaf(Entry(call, [root, statement]), specifier, binds);
    ParsedCallsIs(root, binds);
  }
}
