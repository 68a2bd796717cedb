/** Inlining the classic dependencies of a worker script
    (frontend/extension-assets/extension_webview_worker_modules.ts). */
module ClassicImports {
  import opened Wrappers
  import opened Splicing
  import SyntaxWalk

  type Url = string

  /** A response: its canonical URL and its source. */
  datatype Script = Script(url: Url, source: string)

  /** One importScripts call: its span and its literal specifiers. */
  datatype CallSite = CallSite(span: Span, specifiers: seq<string>)

  /** What the materializer is given: the response to each target, the parser's calls, URL resolution
      and JSON quoting. A target without a response, a source that does not parse and a specifier that does
      not resolve to an https URL are errors. */
  datatype World = World(
    responses: map<Url, Script>,
    parse: string -> Option<seq<CallSite>>,
    normalize: (string, Url) -> Option<Url>,
    quote: string -> string)

  function DependencyOf(w: World, script: Script, specifier: string): Option<Script> {
    match w.normalize(specifier, script.url)
    case None => None
    case Some(target) => if target in w.responses then Some(w.responses[target]) else None
  }

  // `d` is a dependency of `script`.
  ghost predicate Depends(w: World, script: Script, d: Script) {
    w.parse(script.source).Some?
    && exists call, specifier ::
         call in w.parse(script.source).value && specifier in call.specifiers
         && DependencyOf(w, script, specifier) == Some(d)
  }

  // The script does not parse, or one of its dependencies cannot be obtained.
  ghost predicate Broken(w: World, script: Script) {
    match w.parse(script.source)
    case None => true
    case Some(calls) =>
      exists call, specifier ::
        call in calls && specifier in call.specifiers && DependencyOf(w, script, specifier) == None
  }

  // -------------------------------------------------------------------------
  // Assembling one script from its dependencies
  // -------------------------------------------------------------------------

  // How a dependency is turned into text, if it can be.
  type Inliner = Script --> Option<string>

  ghost predicate Covers(w: World, script: Script, calls: seq<CallSite>, inline: Inliner) {
    forall call, specifier | call in calls && specifier in call.specifiers ::
      DependencyOf(w, script, specifier).Some? ==> inline.requires(DependencyOf(w, script, specifier).value)
  }

  function Wrapped(w: World, url: Url, text: string): string {
    "(0, eval)(" + w.quote(text + "\n//# sourceURL=" + url) + ");"
  }

  function InlineSpecifiers(w: World, script: Script, specifiers: seq<string>, inline: Inliner): Option<seq<string>>
    requires forall specifier | specifier in specifiers ::
               DependencyOf(w, script, specifier).Some? ==> inline.requires(DependencyOf(w, script, specifier).value)
  {
    if specifiers == [] then Some([])
    else
      match DependencyOf(w, script, specifiers[0])
      case None => None
      case Some(d) =>
        match (inline(d), InlineSpecifiers(w, script, specifiers[1..], inline))
        case (Some(text), Some(rest)) => Some([Wrapped(w, d.url, text)] + rest)
        case _ => None
  }

  function Join(lines: seq<string>): string {
    if lines == [] then "" else if |lines| == 1 then lines[0] else lines[0] + "\n" + Join(lines[1..])
  }

  function InlineCalls(w: World, script: Script, calls: seq<CallSite>, inline: Inliner): Option<seq<Edit>>
    requires Covers(w, script, calls, inline)
  {
    if calls == [] then Some([])
    else
      assert calls[0] in calls;
      match (InlineSpecifiers(w, script, calls[0].specifiers, inline), InlineCalls(w, script, calls[1..], inline))
      case (Some(lines), Some(rest)) => Some([Edit(calls[0].span, Join(lines))] + rest)
      case _ => None
  }

  /** The source with every call replaced by the inlined text of its dependencies. */
  function Assemble(w: World, script: Script, inline: Inliner): Option<string>
    requires w.parse(script.source).Some? ==> Covers(w, script, w.parse(script.source).value, inline)
  {
    match w.parse(script.source)
    case None => None
    case Some(calls) =>
      match InlineCalls(w, script, calls, inline)
      case None => None
      case Some(edits) => Some(Rewrite(script.source, edits))
  }

  // -------------------------------------------------------------------------
  // The materializer
  // -------------------------------------------------------------------------

  /** Every response lies in `urls`. */
  ghost predicate Closed(w: World, urls: set<Url>) {
    forall target | target in w.responses :: w.responses[target].url in urls
  }

  lemma DependencyIsResponse(w: World, urls: set<Url>, script: Script)
    requires Closed(w, urls)
    ensures forall specifier :: DependencyOf(w, script, specifier).Some?
              ==> DependencyOf(w, script, specifier).value.url in urls
  {}

  lemma AncestorsGrow(urls: set<Url>, ancestors: set<Url>, url: Url)
    requires url in urls && url !in ancestors
    ensures |urls - (ancestors + {url})| < |urls - ancestors|
  {
    assert urls - (ancestors + {url}) == (urls - ancestors) - {url};
  }

  /** Inlines the dependencies of `script` recursively; an ancestor that comes back is an error. */
  function Materialize(w: World, urls: set<Url>, script: Script, ancestors: set<Url>): Option<string>
    requires Closed(w, urls) && script.url in urls
    decreases |urls - ancestors|
  {
    if script.url in ancestors then None
    else
      AncestorsGrow(urls, ancestors, script.url);
      DependencyIsResponse(w, urls, script);
      Assemble(w, script, (d: Script) requires d.url in urls => Materialize(w, urls, d, ancestors + {script.url}))
  }

  // -------------------------------------------------------------------------
  // When it succeeds
  // -------------------------------------------------------------------------

  // Some specifier cannot be obtained, or its dependency cannot be inlined.
  ghost predicate Stuck(w: World, script: Script, specifiers: seq<string>, inline: Inliner)
    requires forall specifier | specifier in specifiers ::
               DependencyOf(w, script, specifier).Some? ==> inline.requires(DependencyOf(w, script, specifier).value)
  {
    exists specifier :: specifier in specifiers
      && (DependencyOf(w, script, specifier).None? || inline(DependencyOf(w, script, specifier).value).None?)
  }

  lemma {:induction false} SpecifiersFail(w: World, script: Script, specifiers: seq<string>, inline: Inliner)
    requires forall specifier | specifier in specifiers ::
               DependencyOf(w, script, specifier).Some? ==> inline.requires(DependencyOf(w, script, specifier).value)
    ensures InlineSpecifiers(w, script, specifiers, inline).None? <==> Stuck(w, script, specifiers, inline)
  {
    hide DependencyOf, Wrapped;
    if specifiers != [] {
      SpecifiersFail(w, script, specifiers[1..], inline);
      assert forall specifier :: specifier in specifiers <==> specifier == specifiers[0] || specifier in specifiers[1..];
    }
  }

  lemma {:induction false} CallsFail(w: World, script: Script, calls: seq<CallSite>, inline: Inliner)
    requires Covers(w, script, calls, inline)
    ensures InlineCalls(w, script, calls, inline).None?
       <==> exists call :: call in calls && Stuck(w, script, call.specifiers, inline)
  {
    hide DependencyOf, InlineSpecifiers, Join, Stuck;
    if calls != [] {
      assert calls[0] in calls;
      SpecifiersFail(w, script, calls[0].specifiers, inline);
      CallsFail(w, script, calls[1..], inline);
      assert forall call :: call in calls <==> call == calls[0] || call in calls[1..];
    }
  }

  // A script cannot be assembled exactly when it is broken or one of its dependencies cannot be inlined.
  lemma AssembleFails(w: World, script: Script, inline: Inliner)
    requires w.parse(script.source).Some? ==> Covers(w, script, w.parse(script.source).value, inline)
    ensures Assemble(w, script, inline).None?
       <==> Broken(w, script) || exists d :: Depends(w, script, d) && inline.requires(d) && inline(d).None?
  {
    hide DependencyOf;
    if w.parse(script.source).Some? {
      var calls := w.parse(script.source).value;
      CallsFail(w, script, calls, inline);
      if call :| call in calls && Stuck(w, script, call.specifiers, inline) {
        var specifier :| specifier in call.specifiers
          && (DependencyOf(w, script, specifier).None? || inline(DependencyOf(w, script, specifier).value).None?);
        if DependencyOf(w, script, specifier).Some? {
          assert Depends(w, script, DependencyOf(w, script, specifier).value);
        }
      }
    }
  }

  // Assembling only asks about the dependencies.
  lemma {:induction false} SpecifiersAgree(w: World, script: Script, specifiers: seq<string>, f: Inliner, g: Inliner)
    requires forall specifier | specifier in specifiers && DependencyOf(w, script, specifier).Some? ::
               var d := DependencyOf(w, script, specifier).value;
               f.requires(d) && g.requires(d) && f(d) == g(d)
    ensures InlineSpecifiers(w, script, specifiers, f) == InlineSpecifiers(w, script, specifiers, g)
  {
    hide DependencyOf, Wrapped;
    if specifiers != [] {
      SpecifiersAgree(w, script, specifiers[1..], f, g);
    }
  }

  lemma {:induction false} CallsAgree(w: World, script: Script, calls: seq<CallSite>, f: Inliner, g: Inliner)
    requires forall call, specifier | call in calls && specifier in call.specifiers
                                      && DependencyOf(w, script, specifier).Some? ::
               var d := DependencyOf(w, script, specifier).value;
               f.requires(d) && g.requires(d) && f(d) == g(d)
    ensures InlineCalls(w, script, calls, f) == InlineCalls(w, script, calls, g)
  {
    hide DependencyOf, InlineSpecifiers, Join;
    if calls != [] {
      assert calls[0] in calls;
      SpecifiersAgree(w, script, calls[0].specifiers, f, g);
      CallsAgree(w, script, calls[1..], f, g);
    }
  }

  lemma AssembleAgrees(w: World, script: Script, f: Inliner, g: Inliner)
    requires forall d | Depends(w, script, d) :: f.requires(d) && g.requires(d) && f(d) == g(d)
    ensures w.parse(script.source).Some? ==> Covers(w, script, w.parse(script.source).value, f)
                                             && Covers(w, script, w.parse(script.source).value, g)
    ensures Assemble(w, script, f) == Assemble(w, script, g)
  {
    hide DependencyOf;
    if w.parse(script.source).Some? {
      var calls := w.parse(script.source).value;
      forall call, specifier | call in calls && specifier in call.specifiers && DependencyOf(w, script, specifier).Some?
        ensures Depends(w, script, DependencyOf(w, script, specifier).value)
      {
      }
      CallsAgree(w, script, calls, f, g);
    }
  }

  // A dependency chain: each script depends on the next.
  ghost predicate IsChain(w: World, chain: seq<Script>) {
    chain != [] && forall k | 0 <= k < |chain| - 1 :: Depends(w, chain[k], chain[k + 1])
  }

  ghost function Urls(chain: seq<Script>): set<Url> {
    set s | s in chain :: s.url
  }

  // A chain that ends in a broken script, or in a URL met before it or among the ancestors.
  ghost predicate DeadEnd(w: World, chain: seq<Script>, ancestors: set<Url>) {
    && IsChain(w, chain)
    && (Broken(w, chain[|chain| - 1]) || chain[|chain| - 1].url in ancestors + Urls(chain[..|chain| - 1]))
  }

  /** The recursive call that materializing makes on a dependency. */
  function Recur(w: World, urls: set<Url>, script: Script, ancestors: set<Url>): Inliner
    requires Closed(w, urls)
  {
    (d: Script) requires d.url in urls => Materialize(w, urls, d, ancestors + {script.url})
  }

  lemma MaterializeIs(w: World, urls: set<Url>, script: Script, ancestors: set<Url>)
    requires Closed(w, urls) && script.url in urls && script.url !in ancestors
    ensures w.parse(script.source).Some? ==>
              Covers(w, script, w.parse(script.source).value, Recur(w, urls, script, ancestors))
    ensures Materialize(w, urls, script, ancestors) == Assemble(w, script, Recur(w, urls, script, ancestors))
  {
    DependencyIsResponse(w, urls, script);
    var inline := (d: Script) requires d.url in urls => Materialize(w, urls, d, ancestors + {script.url});
    assert Materialize(w, urls, script, ancestors) == Assemble(w, script, inline);
    forall d | Depends(w, script, d)
      ensures d.url in urls
    {
    }
    hide Materialize, Assemble;
    AssembleAgrees(w, script, inline, Recur(w, urls, script, ancestors));
  }

  // Materializing fails exactly when the entry is its own ancestor, is broken, or a dependency fails.
  lemma MaterializeFails(w: World, urls: set<Url>, script: Script, ancestors: set<Url>)
    requires Closed(w, urls) && script.url in urls
    ensures forall d | Depends(w, script, d) :: d.url in urls
    ensures Materialize(w, urls, script, ancestors).None?
       <==> script.url in ancestors || Broken(w, script)
            || exists d :: Depends(w, script, d) && Materialize(w, urls, d, ancestors + {script.url}).None?
  {
    DependencyIsResponse(w, urls, script);
    assert forall d | Depends(w, script, d) :: d.url in urls;
    hide Depends, Broken, Materialize, Assemble;
    if script.url in ancestors {
      AncestorFails(w, urls, script, ancestors);
    } else {
      MaterializeIs(w, urls, script, ancestors);
      AssembleFails(w, script, Recur(w, urls, script, ancestors));
    }
  }

  lemma AncestorFails(w: World, urls: set<Url>, script: Script, ancestors: set<Url>)
    requires Closed(w, urls) && script.url in urls && script.url in ancestors
    ensures Materialize(w, urls, script, ancestors).None?
  {}

  lemma ChainTail(w: World, chain: seq<Script>, ancestors: set<Url>)
    requires DeadEnd(w, chain, ancestors) && |chain| > 1
    ensures Depends(w, chain[0], chain[1]) && DeadEnd(w, chain[1..], ancestors + {chain[0].url})
  {
    hide Depends, Broken;
    var tail := chain[1..];
    forall k | 0 <= k < |tail| - 1
      ensures Depends(w, tail[k], tail[k + 1])
    {
      assert Depends(w, chain[k + 1], chain[k + 2]);
    }
    var last := |chain| - 1;
    if chain[last].url in Urls(chain[..last]) {
      var s :| s in chain[..last] && s.url == chain[last].url;
      assert s == chain[0] || s in tail[..last - 1];
    }
  }

  lemma ChainCons(w: World, script: Script, chain: seq<Script>, ancestors: set<Url>)
    requires chain != [] && Depends(w, script, chain[0]) && DeadEnd(w, chain, ancestors + {script.url})
    ensures DeadEnd(w, [script] + chain, ancestors)
  {
    hide Depends, Broken;
    var whole := [script] + chain;
    var last := |chain| - 1;
    forall k | 0 <= k < |whole| - 1
      ensures Depends(w, whole[k], whole[k + 1])
    {
      if k > 0 {
        assert Depends(w, chain[k - 1], chain[k]);
      }
    }
    assert whole[..|whole| - 1] == [script] + chain[..last];
    assert script in whole[..|whole| - 1];
    assert forall s | s in chain[..last] :: s in whole[..|whole| - 1];
  }

  lemma {:induction false} DeadEndFails(w: World, urls: set<Url>, chain: seq<Script>, ancestors: set<Url>)
    requires Closed(w, urls) && DeadEnd(w, chain, ancestors) && chain[0].url in urls
    ensures Materialize(w, urls, chain[0], ancestors).None?
    decreases |chain|
  {
    hide Depends, Broken, Materialize;
    MaterializeFails(w, urls, chain[0], ancestors);
    if |chain| > 1 {
      ChainTail(w, chain, ancestors);
      DeadEndFails(w, urls, chain[1..], ancestors + {chain[0].url});
    } else {
      assert Urls(chain[..0]) == {};
    }
  }

  lemma {:induction false} FailureHasDeadEnd(w: World, urls: set<Url>, script: Script, ancestors: set<Url>)
    returns (chain: seq<Script>)
    requires Closed(w, urls) && script.url in urls && Materialize(w, urls, script, ancestors).None?
    ensures chain != [] && chain[0] == script && DeadEnd(w, chain, ancestors)
    decreases |urls - ancestors|
  {
    hide Depends, Broken, Materialize;
    MaterializeFails(w, urls, script, ancestors);
    if script.url in ancestors || Broken(w, script) {
      chain := [script];
    } else {
      var d :| Depends(w, script, d) && Materialize(w, urls, d, ancestors + {script.url}).None?;
      AncestorsGrow(urls, ancestors, script.url);
      var rest := FailureHasDeadEnd(w, urls, d, ancestors + {script.url});
      ChainCons(w, script, rest, ancestors);
      chain := [script] + rest;
    }
  }

  /** Every URL of the graph of `entry`. */
  function AllUrls(w: World, entry: Script): set<Url> {
    {entry.url} + set target | target in w.responses :: w.responses[target].url
  }

  /** The materialized entry script. */
  function MaterializeEntry(w: World, entry: Script): Option<string> {
    Materialize(w, AllUrls(w, entry), entry, {})
  }

  // Materializing succeeds exactly when no dependency chain from the entry repeats a URL or meets a script
  // that does not parse or whose dependencies cannot be obtained.
  lemma SucceedsIffNoDeadEnd(w: World, entry: Script)
    ensures MaterializeEntry(w, entry).Some?
       <==> !exists chain: seq<Script> :: chain != [] && chain[0] == entry && DeadEnd(w, chain, {})
  {
    hide DeadEnd, Materialize;
    var urls := AllUrls(w, entry);
    if MaterializeEntry(w, entry).None? {
      var chain := FailureHasDeadEnd(w, urls, entry, {});
    }
    if chain: seq<Script> :| chain != [] && chain[0] == entry && DeadEnd(w, chain, {}) {
      DeadEndFails(w, urls, chain, {});
    }
  }

  // `chain` is a dependency chain from `entry`.
  ghost predicate ChainFrom(w: World, entry: Script, chain: seq<Script>) {
    IsChain(w, chain) && chain[0] == entry
  }

  // With every fetch and parse along the chains successful, that is: exactly when no chain repeats a URL.
  lemma SucceedsIffAcyclic(w: World, entry: Script)
    requires forall chain: seq<Script> | ChainFrom(w, entry, chain) :: !Broken(w, chain[|chain| - 1])
    ensures MaterializeEntry(w, entry).Some?
       <==> forall chain: seq<Script> | ChainFrom(w, entry, chain) ::
              chain[|chain| - 1].url !in Urls(chain[..|chain| - 1])
  {
    hide Broken, Depends, MaterializeEntry;
    SucceedsIffNoDeadEnd(w, entry);
    if MaterializeEntry(w, entry).None? {
      var chain: seq<Script> :| chain != [] && chain[0] == entry && DeadEnd(w, chain, {});
      assert ChainFrom(w, entry, chain);
    } else {
      forall chain: seq<Script> | ChainFrom(w, entry, chain)
        ensures chain[|chain| - 1].url !in Urls(chain[..|chain| - 1])
      {
        assert !DeadEnd(w, chain, {});
      }
    }
  }

  // -------------------------------------------------------------------------
  // What it produces
  // -------------------------------------------------------------------------

  /** The unfolding of the dependency tree to at most `depth` levels, without any check for cycles. */
  function Unfold(w: World, script: Script, depth: nat): Option<string>
    decreases depth
  {
    if depth == 0 then None
    else Assemble(w, script, (d: Script) => Unfold(w, d, depth - 1))
  }

  function Below(w: World, depth: nat): Inliner {
    (d: Script) => Unfold(w, d, depth)
  }

  lemma UnfoldIs(w: World, script: Script, depth: nat)
    requires depth > 0
    ensures Unfold(w, script, depth) == Assemble(w, script, Below(w, depth - 1))
  {
    AssembleAgrees(w, script, (d: Script) => Unfold(w, d, depth - 1), Below(w, depth - 1));
  }

  // A materialized script is the recursive inlining of its dependency tree.
  lemma {:induction false} MaterializeUnfolds(w: World, urls: set<Url>, script: Script, ancestors: set<Url>, depth: nat)
    requires Closed(w, urls) && script.url in urls && depth > |urls - ancestors|
    requires Materialize(w, urls, script, ancestors).Some?
    ensures Unfold(w, script, depth) == Materialize(w, urls, script, ancestors)
    decreases |urls - ancestors|
  {
    hide Depends, Broken, Materialize, Unfold, Assemble;
    MaterializeFails(w, urls, script, ancestors);
    MaterializeIs(w, urls, script, ancestors);
    UnfoldIs(w, script, depth);
    AncestorsGrow(urls, ancestors, script.url);
    forall d | Depends(w, script, d)
      ensures Unfold(w, d, depth - 1) == Materialize(w, urls, d, ancestors + {script.url})
    {
      MaterializeUnfolds(w, urls, d, ancestors + {script.url}, depth - 1);
    }
    AssembleAgrees(w, script, Recur(w, urls, script, ancestors), Below(w, depth - 1));
  }

  lemma EntryUnfolds(w: World, entry: Script, depth: nat)
    requires MaterializeEntry(w, entry).Some? && depth > |AllUrls(w, entry)|
    ensures MaterializeEntry(w, entry) == Unfold(w, entry, depth)
  {
    assert AllUrls(w, entry) - {} == AllUrls(w, entry);
    MaterializeUnfolds(w, AllUrls(w, entry), entry, {}, depth);
  }

  // -------------------------------------------------------------------------
  // What the cycle check refuses beyond that: chains that hold two scripts of one URL
  // -------------------------------------------------------------------------

  lemma UnfoldFails(w: World, script: Script, depth: nat)
    requires depth > 0
    ensures Unfold(w, script, depth).None?
       <==> Broken(w, script) || exists d :: Depends(w, script, d) && Unfold(w, d, depth - 1).None?
  {
    hide Depends, Broken, Unfold;
    UnfoldIs(w, script, depth);
    AssembleFails(w, script, Below(w, depth - 1));
  }

  // No script of a chain that ends where a script of it began can be unfolded to any depth.
  lemma {:induction false} LoopFails(w: World, chain: seq<Script>, from: nat, k: nat, depth: nat)
    requires IsChain(w, chain) && from < |chain| - 1 && chain[|chain| - 1] == chain[from]
    requires k < |chain|
    ensures Unfold(w, chain[k], depth).None?
    decreases depth
  {
    hide Depends, Broken;
    if depth > 0 {
      var at := if k == |chain| - 1 then from else k;
      assert Depends(w, chain[at], chain[at + 1]);
      LoopFails(w, chain, from, at + 1, depth - 1);
      UnfoldFails(w, chain[k], depth);
    }
  }

  lemma {:induction false} BrokenChainFails(w: World, chain: seq<Script>, k: nat, depth: nat)
    requires IsChain(w, chain) && Broken(w, chain[|chain| - 1]) && k < |chain|
    ensures Unfold(w, chain[k], depth).None?
    decreases depth
  {
    hide Depends, Broken;
    if depth > 0 {
      UnfoldFails(w, chain[k], depth);
      if k < |chain| - 1 {
        BrokenChainFails(w, chain, k + 1, depth - 1);
      }
    }
  }

  // No dependency chain from the entry holds two different scripts of one URL.
  ghost predicate OneSourceOnChains(w: World, entry: Script) {
    forall chain: seq<Script>, i, j | ChainFrom(w, entry, chain) && 0 <= i < j < |chain| ::
      chain[i].url == chain[j].url ==> chain[i] == chain[j]
  }

  lemma ChainPrefix(w: World, chain: seq<Script>, count: nat)
    requires IsChain(w, chain) && 0 < count <= |chain|
    ensures IsChain(w, chain[..count])
  {
    hide Depends;
    forall k | 0 <= k < count - 1
      ensures Depends(w, chain[..count][k], chain[..count][k + 1])
    {
      assert Depends(w, chain[k], chain[k + 1]);
    }
  }

  // A chain that meets a URL twice has a dead end.
  lemma RepetitionIsDeadEnd(w: World, chain: seq<Script>, i: nat, j: nat)
    requires IsChain(w, chain) && i < j < |chain| && chain[i].url == chain[j].url
    ensures DeadEnd(w, chain[..j + 1], {})
  {
    hide Broken, Depends;
    var prefix := chain[..j + 1];
    ChainPrefix(w, chain, j + 1);
    hide IsChain;
    assert prefix[..j][i] == chain[i] && prefix[..j][i] in prefix[..j];
  }

  // A success meets no URL twice on any chain.
  lemma SuccessRepeatsNothing(w: World, entry: Script, chain: seq<Script>, i: nat, j: nat)
    requires MaterializeEntry(w, entry).Some? && ChainFrom(w, entry, chain) && i < j < |chain|
    ensures chain[i].url != chain[j].url
  {
    hide DeadEnd, MaterializeEntry;
    SucceedsIffNoDeadEnd(w, entry);
    assert chain[..j + 1][0] == entry;
    if chain[i].url == chain[j].url {
      RepetitionIsDeadEnd(w, chain, i, j);
    }
  }

  // An entry on whose chains every URL has one source cannot be unfolded when materializing fails.
  lemma FailureUnfoldsNot(w: World, entry: Script, depth: nat)
    requires MaterializeEntry(w, entry).None? && OneSourceOnChains(w, entry)
    ensures Unfold(w, entry, depth).None?
  {
    hide Depends, Broken, MaterializeEntry, Unfold;
    SucceedsIffNoDeadEnd(w, entry);
    var chain: seq<Script> :| chain != [] && chain[0] == entry && DeadEnd(w, chain, {});
    var last := |chain| - 1;
    if Broken(w, chain[last]) {
      BrokenChainFails(w, chain, 0, depth);
    } else {
      var s :| s in chain[..last] && s.url == chain[last].url;
      var from :| 0 <= from < last && chain[from] == s;
      assert ChainFrom(w, entry, chain);
      LoopFails(w, chain, from, 0, depth);
    }
  }

  // Materializing succeeds exactly when the dependency tree has a finite inlining and no chain from the entry
  // holds two different scripts of one URL.
  lemma SucceedsIffUnfolds(w: World, entry: Script)
    ensures MaterializeEntry(w, entry).Some?
       <==> (exists depth: nat :: Unfold(w, entry, depth).Some?) && OneSourceOnChains(w, entry)
  {
    hide Depends, Broken, MaterializeEntry, Unfold, IsChain;
    if MaterializeEntry(w, entry).Some? {
      EntryUnfolds(w, entry, |AllUrls(w, entry)| + 1);
      forall chain: seq<Script>, i, j | ChainFrom(w, entry, chain) && 0 <= i < j < |chain|
        ensures chain[i].url != chain[j].url
      {
        SuccessRepeatsNothing(w, entry, chain, i, j);
      }
    } else if depth: nat :| Unfold(w, entry, depth).Some? {
      if OneSourceOnChains(w, entry) {
        FailureUnfoldsNot(w, entry, depth);
      }
    }
  }

  // -------------------------------------------------------------------------
  // The spans of one script
  // -------------------------------------------------------------------------

  // A parser that gives a tree for a source, or nothing.
  type TreeParser = string -> Option<SyntaxWalk.Ast>

  /** The calls the syntax walk finds in the tree of a source. */
  function CallsOf(parser: TreeParser, binds: SyntaxWalk.Binder, source: string): Option<seq<CallSite>> {
    match parser(source)
    case None => None
    case Some(root) =>
      match SyntaxWalk.ParsedCalls(root, binds)
      case Err(_) => None
      case Ok(sites) =>
        Some(seq(|sites|, k requires 0 <= k < |sites| && sites[k].specifiers.Some? =>
          CallSite(sites[k].span, sites[k].specifiers.value)))
  }

  // The calls of a source are those that the walk collects, in its order, with their spans and specifiers.
  lemma CallsAre(parser: TreeParser, binds: SyntaxWalk.Binder, source: string, calls: seq<CallSite>)
    ensures CallsOf(parser, binds, source) == Some(calls) <==>
              && parser(source).Some?
              && SyntaxWalk.ParsedCalls(parser(source).value, binds).Ok?
              && var sites := SyntaxWalk.ParsedCalls(parser(source).value, binds).value;
                 |calls| == |sites|
                 && forall k | 0 <= k < |sites| ::
                      calls[k].span == sites[k].span && Some(calls[k].specifiers) == sites[k].specifiers
  {
    if parser(source).Some? && SyntaxWalk.ParsedCalls(parser(source).value, binds).Ok? {
      var sites := SyntaxWalk.ParsedCalls(parser(source).value, binds).value;
      var found := CallsOf(parser, binds, source).value;
      assert forall k | 0 <= k < |sites| :: sites[k].specifiers.Some?;
      hide SyntaxWalk.ParsedCalls;
      assert |found| == |sites|;
      assert forall k | 0 <= k < |sites| :: found[k] == CallSite(sites[k].span, sites[k].specifiers.value);
      if |calls| == |sites| && forall k | 0 <= k < |sites| ::
           calls[k].span == sites[k].span && Some(calls[k].specifiers) == sites[k].specifiers {
        assert forall k | 0 <= k < |sites| :: calls[k] == found[k];
        assert calls == found;
      }
    }
  }

  ghost predicate WellParsed(parser: TreeParser, source: string) {
    parser(source).Some? ==> SyntaxWalk.WellSpanned(parser(source).value) && parser(source).value.span.end <= |source|
  }

  lemma {:induction false} EditsKeepSpans(w: World, script: Script, calls: seq<CallSite>, inline: Inliner)
    requires Covers(w, script, calls, inline) && InlineCalls(w, script, calls, inline).Some?
    ensures var edits := InlineCalls(w, script, calls, inline).value;
            |edits| == |calls|
            && forall k | 0 <= k < |calls| :: edits[k].span == calls[k].span
  {
    hide DependencyOf, InlineSpecifiers, Join;
    if calls != [] {
      assert calls[0] in calls;
      EditsKeepSpans(w, script, calls[1..], inline);
    }
  }

  // Assembling a script replaces all its calls at once, each by the text of its own dependencies.
  lemma AssembleSubstitutes(w: World, parser: TreeParser, binds: SyntaxWalk.Binder, script: Script, inline: Inliner)
    requires forall source :: w.parse(source) == CallsOf(parser, binds, source)
    requires WellParsed(parser, script.source)
    requires w.parse(script.source).Some? ==> Covers(w, script, w.parse(script.source).value, inline)
    requires Assemble(w, script, inline).Some?
    ensures var edits := InlineCalls(w, script, w.parse(script.source).value, inline).value;
            Disjoint(script.source, SetOf(edits))
            && Assemble(w, script, inline).value == Substituted(script.source, SetOf(edits), 0)
  {
    var root := parser(script.source).value;
    var calls := w.parse(script.source).value;
    var edits := InlineCalls(w, script, calls, inline).value;
    SyntaxWalk.CallsAreDisjoint(root, binds);
    EditsKeepSpans(w, script, calls, inline);
    hide InlineCalls, Rewrite, SyntaxWalk.ParsedCalls;
    var sites := SyntaxWalk.ParsedCalls(root, binds).value;
    assert forall k | 0 <= k < |calls| :: edits[k].span == sites[k].span;
    forall i, j | 0 <= i < j < |edits|
      ensures Apart(edits[i].span, edits[j].span)
    {
      assert Apart(sites[i].span, sites[j].span);
    }
    RewriteIsSubstitution(script.source, edits);
  }

  // -------------------------------------------------------------------------
  // A refused script that has a finite inlining
  // -------------------------------------------------------------------------

  const IMPORTER: Script := Script("https://a/", "importScripts(\"https://b/\")")

  // What the target https://b/ answers with: an empty script, from the importer's own URL.
  const REDIRECTED: Script := Script("https://a/", "")

  function ImporterCall(): SyntaxWalk.Ast {
    SyntaxWalk.Ast(SyntaxWalk.Call, Span(0, 27), [
      SyntaxWalk.Ast(SyntaxWalk.Identifier("importScripts"), Span(0, 13), []),
      SyntaxWalk.Ast(SyntaxWalk.StringLiteral("https://b/"), Span(14, 26), [])])
  }

  function ImporterStatement(): SyntaxWalk.Ast {
    SyntaxWalk.Ast(SyntaxWalk.Other, Span(0, 27), [ImporterCall()])
  }

  function ImporterTree(): SyntaxWalk.Ast {
    SyntaxWalk.Ast(SyntaxWalk.Other, Span(0, 27), [ImporterStatement()])
  }

  function EmptyTree(): SyntaxWalk.Ast {
    SyntaxWalk.Ast(SyntaxWalk.Other, Span(0, 0), [])
  }

  lemma ImporterParsed(parser: TreeParser, binds: SyntaxWalk.Binder)
    requires parser(IMPORTER.source) == Some(ImporterTree()) && parser(REDIRECTED.source) == Some(EmptyTree())
    requires !binds("importScripts", [ImporterTree(), ImporterStatement()])
    ensures CallsOf(parser, binds, IMPORTER.source) == Some([CallSite(Span(0, 27), ["https://b/"])])
    ensures CallsOf(parser, binds, REDIRECTED.source) == Some([])
  {
    SyntaxWalk.LoneCall(ImporterTree(), ImporterStatement(), ImporterCall(), "https://b/", binds);
    SyntaxWalk.LoneNode(EmptyTree(), binds);
    hide SyntaxWalk.ParsedCalls, ImporterTree, EmptyTree, CallsOf;
    CallsAre(parser, binds, IMPORTER.source, [CallSite(Span(0, 27), ["https://b/"])]);
    CallsAre(parser, binds, REDIRECTED.source, []);
  }

  lemma TreesWellSpanned()
    ensures SyntaxWalk.WellSpanned(ImporterTree()) && SyntaxWalk.WellSpanned(EmptyTree())
  {
    assert SyntaxWalk.WellSpanned(ImporterCall());
    assert SyntaxWalk.WellSpanned(ImporterStatement());
  }

  // The condition on chains is needed: with any parser that gives these trees for these two sources, and no
  // shadowing, the importer is refused although its inlining is finite.
  lemma SharedUrlRefused(w: World, parser: TreeParser, binds: SyntaxWalk.Binder)
    requires forall source :: w.parse(source) == CallsOf(parser, binds, source)
    requires parser(IMPORTER.source) == Some(ImporterTree()) && parser(REDIRECTED.source) == Some(EmptyTree())
    requires !binds("importScripts", [ImporterTree(), ImporterStatement()])
    requires w.normalize("https://b/", IMPORTER.url) == Some("https://b/")
    requires w.responses == map["https://b/" := REDIRECTED]
    ensures WellParsed(parser, IMPORTER.source) && WellParsed(parser, REDIRECTED.source)
    ensures MaterializeEntry(w, IMPORTER).None? && Unfold(w, IMPORTER, 2).Some?
    ensures !OneSourceOnChains(w, IMPORTER)
  {
    TreesWellSpanned();
    ImporterParsed(parser, binds);
    hide CallsOf, SyntaxWalk.WellSpanned;
    OneDependency(w);
    Refused(w);
  }

  lemma Refused(w: World)
    requires !Broken(w, IMPORTER) && !Broken(w, REDIRECTED)
    requires forall d :: Depends(w, IMPORTER, d) <==> d == REDIRECTED
    requires forall d :: !Depends(w, REDIRECTED, d)
    ensures MaterializeEntry(w, IMPORTER).None? && Unfold(w, IMPORTER, 2).Some?
    ensures !OneSourceOnChains(w, IMPORTER)
  {
    hide Depends, Broken, Unfold, MaterializeEntry;
    UnfoldFails(w, REDIRECTED, 1);
    UnfoldFails(w, IMPORTER, 2);
    var chain := [IMPORTER, REDIRECTED];
    assert ChainFrom(w, IMPORTER, chain) && chain[0].url == chain[1].url && chain[0] != chain[1];
    SucceedsIffUnfolds(w, IMPORTER);
  }

  lemma OneDependency(w: World)
    requires w.parse(IMPORTER.source) == Some([CallSite(Span(0, 27), ["https://b/"])])
    requires w.parse(REDIRECTED.source) == Some([])
    requires w.normalize("https://b/", IMPORTER.url) == Some("https://b/")
    requires w.responses == map["https://b/" := REDIRECTED]
    ensures !Broken(w, IMPORTER) && !Broken(w, REDIRECTED)
    ensures forall d :: Depends(w, IMPORTER, d) <==> d == REDIRECTED
    ensures forall d :: !Depends(w, REDIRECTED, d)
  {
    var call := CallSite(Span(0, 27), ["https://b/"]);
    assert call in w.parse(IMPORTER.source).value && "https://b/" in call.specifiers;
    assert DependencyOf(w, IMPORTER, "https://b/") == Some(REDIRECTED);
  }
}
