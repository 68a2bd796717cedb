/** What the materializer produces, as a relation between a script and a text
    (frontend/extension-assets/extension_webview_worker_modules.ts). */
module Inlining {
  import opened Wrappers
  import opened Splicing
  import opened ClassicImports

  // What a specifier of a script resolves to.
  ghost predicate Resolves(w: World, script: Script, specifier: string, d: Script) {
    match w.normalize(specifier, script.url)
    case None => false
    case Some(target) => target in w.responses && d == w.responses[target]
  }

  /** Every line followed by a newline. */
  function Ended(lines: seq<string>): string {
    if lines == [] then "" else lines[0] + "\n" + Ended(lines[1..])
  }

  // `text` consists of the lines, with one newline between two of them.
  ghost predicate IsLines(text: string, lines: seq<string>) {
    if lines == [] then text == "" else text + "\n" == Ended(lines)
  }

  // How dependencies read: `reading` holds of a dependency and its text.
  type Reading = (Script, string) -> bool

  // `line` evaluates the text of what the specifier resolves to.
  ghost predicate IsLine(w: World, script: Script, specifier: string, line: string, reading: Reading) {
    exists d, text ::
      && Resolves(w, script, specifier, d) && reading(d, text)
      && line == "(0, eval)(" + w.quote(text + "\n//# sourceURL=" + d.url) + ");"
  }

  // The lines of a list of specifiers, in their order.
  ghost predicate AreLines(w: World, script: Script, specifiers: seq<string>, lines: seq<string>, reading: Reading) {
    |lines| == |specifiers| && forall k | 0 <= k < |lines| :: IsLine(w, script, specifiers[k], lines[k], reading)
  }

  // The edit of one call: its span, and one line for each of its specifiers, in their order.
  ghost predicate IsEdit(w: World, script: Script, call: CallSite, edit: Edit, reading: Reading) {
    && edit.span == call.span
    && exists lines :: AreLines(w, script, call.specifiers, lines, reading) && IsLines(edit.text, lines)
  }

  ghost predicate AreEdits(w: World, script: Script, calls: seq<CallSite>, edits: seq<Edit>, reading: Reading) {
    |edits| == |calls| && forall c | 0 <= c < |edits| :: IsEdit(w, script, calls[c], edits[c], reading)
  }

  // `text` is the script with every call replaced by the lines of its dependencies.
  ghost predicate IsAssembled(w: World, script: Script, text: string, reading: Reading) {
    && w.parse(script.source).Some?
    && exists edits ::
         AreEdits(w, script, w.parse(script.source).value, edits, reading) && text == Rewrite(script.source, edits)
  }

  // `text` is the inlining of the script, with dependencies nested less than `depth` deep.
  ghost predicate IsInlining(w: World, script: Script, text: string, depth: nat)
    decreases depth
  {
    depth > 0 && IsAssembled(w, script, text, (d, t) => IsInlining(w, d, t, depth - 1))
  }

  // -------------------------------------------------------------------------
  // The materializer computes this relation
  // -------------------------------------------------------------------------

  // The reading of dependencies that an inliner computes.
  ghost predicate Computes(inline: Inliner, reading: Reading) {
    forall d :: inline.requires(d) && forall t: string :: reading(d, t) <==> inline(d) == Some(t)
  }

  lemma {:induction false} EndedSplit(lines: seq<string>)
    requires lines != []
    ensures Ended(lines) == Join(lines) + "\n"
  {
    if |lines| == 1 {
      assert Ended(lines) == lines[0] + "\n" + Ended(lines[1..]) && Ended(lines[1..]) == "";
    } else {
      EndedSplit(lines[1..]);
      assert lines[0] + "\n" + (Join(lines[1..]) + "\n") == (lines[0] + "\n" + Join(lines[1..])) + "\n";
    }
  }

  lemma SameEnd(a: string, b: string)
    requires a + "\n" == b + "\n"
    ensures a == b
  {
    assert a == (a + "\n")[..|a + "\n"| - 1] && b == (b + "\n")[..|b + "\n"| - 1];
  }

  lemma LinesIs(text: string, lines: seq<string>)
    ensures IsLines(text, lines) <==> text == Join(lines)
  {
    if lines != [] {
      EndedSplit(lines);
      if IsLines(text, lines) {
        SameEnd(text, Join(lines));
      }
    }
  }

  lemma LineIs(w: World, script: Script, specifier: string, line: string, inline: Inliner, reading: Reading)
    requires Computes(inline, reading)
    ensures IsLine(w, script, specifier, line, reading) <==>
              var d := DependencyOf(w, script, specifier);
              d.Some? && inline(d.value).Some? && line == Wrapped(w, d.value.url, inline(d.value).value)
  {
    var d := DependencyOf(w, script, specifier);
    if d.Some? && inline(d.value).Some? && line == Wrapped(w, d.value.url, inline(d.value).value) {
      assert Resolves(w, script, specifier, d.value) && reading(d.value, inline(d.value).value);
    }
  }

  lemma AreLinesCons(w: World, script: Script, specifiers: seq<string>, lines: seq<string>, reading: Reading)
    requires specifiers != [] && lines != []
    ensures AreLines(w, script, specifiers, lines, reading)
       <==> IsLine(w, script, specifiers[0], lines[0], reading)
            && AreLines(w, script, specifiers[1..], lines[1..], reading)
  {
    hide IsLine;
    if IsLine(w, script, specifiers[0], lines[0], reading) && AreLines(w, script, specifiers[1..], lines[1..], reading) {
      forall k | 0 <= k < |lines|
        ensures IsLine(w, script, specifiers[k], lines[k], reading)
      {
        assert k > 0 ==> specifiers[k] == specifiers[1..][k - 1] && lines[k] == lines[1..][k - 1];
      }
    }
  }

  lemma {:induction false} SpecifiersAre(w: World, script: Script, specifiers: seq<string>, lines: seq<string>,
                                         inline: Inliner, reading: Reading)
    requires Computes(inline, reading)
    ensures InlineSpecifiers(w, script, specifiers, inline) == Some(lines)
       <==> AreLines(w, script, specifiers, lines, reading)
    decreases |specifiers|
  {
    hide DependencyOf, Wrapped, IsLine;
    if specifiers != [] && lines != [] {
      SpecifiersAre(w, script, specifiers[1..], lines[1..], inline, reading);
      LineIs(w, script, specifiers[0], lines[0], inline, reading);
      AreLinesCons(w, script, specifiers, lines, reading);
      assert lines == [lines[0]] + lines[1..];
    }
  }

  lemma EditIs(w: World, script: Script, call: CallSite, edit: Edit, inline: Inliner, reading: Reading)
    requires Computes(inline, reading)
    ensures IsEdit(w, script, call, edit, reading) <==>
              var lines := InlineSpecifiers(w, script, call.specifiers, inline);
              lines.Some? && edit == Edit(call.span, Join(lines.value))
  {
    hide IsLine, InlineSpecifiers, Join, IsLines;
    var inlined := InlineSpecifiers(w, script, call.specifiers, inline);
    if inlined.Some? {
      SpecifiersAre(w, script, call.specifiers, inlined.value, inline, reading);
      LinesIs(edit.text, inlined.value);
    }
    if IsEdit(w, script, call, edit, reading) {
      var lines: seq<string> :| AreLines(w, script, call.specifiers, lines, reading) && IsLines(edit.text, lines);
      SpecifiersAre(w, script, call.specifiers, lines, inline, reading);
    }
  }

  lemma AreEditsCons(w: World, script: Script, calls: seq<CallSite>, edits: seq<Edit>, reading: Reading)
    requires calls != [] && edits != []
    ensures AreEdits(w, script, calls, edits, reading)
       <==> IsEdit(w, script, calls[0], edits[0], reading) && AreEdits(w, script, calls[1..], edits[1..], reading)
  {
    hide IsEdit;
    if IsEdit(w, script, calls[0], edits[0], reading) && AreEdits(w, script, calls[1..], edits[1..], reading) {
      forall c | 0 <= c < |edits|
        ensures IsEdit(w, script, calls[c], edits[c], reading)
      {
        assert c > 0 ==> calls[c] == calls[1..][c - 1] && edits[c] == edits[1..][c - 1];
      }
    }
  }

  lemma {:induction false} EditsAre(w: World, script: Script, calls: seq<CallSite>, edits: seq<Edit>,
                                    inline: Inliner, reading: Reading)
    requires Computes(inline, reading)
    ensures InlineCalls(w, script, calls, inline) == Some(edits) <==> AreEdits(w, script, calls, edits, reading)
    decreases |calls|
  {
    hide DependencyOf, InlineSpecifiers, IsEdit, Join;
    if calls != [] && edits != [] {
      EditsAre(w, script, calls[1..], edits[1..], inline, reading);
      EditIs(w, script, calls[0], edits[0], inline, reading);
      AreEditsCons(w, script, calls, edits, reading);
      assert edits == [edits[0]] + edits[1..];
    }
  }

  // Assembling gives exactly the text in which every call is replaced by the lines of its dependencies.
  lemma AssembledIs(w: World, script: Script, text: string, inline: Inliner, reading: Reading)
    requires Computes(inline, reading)
    ensures Assemble(w, script, inline) == Some(text) <==> IsAssembled(w, script, text, reading)
  {
    hide InlineCalls, IsEdit, Rewrite;
    if w.parse(script.source).Some? {
      var calls := w.parse(script.source).value;
      var inlined := InlineCalls(w, script, calls, inline);
      if inlined.Some? {
        EditsAre(w, script, calls, inlined.value, inline, reading);
      }
      if IsAssembled(w, script, text, reading) {
        var edits: seq<Edit> :| AreEdits(w, script, calls, edits, reading) && text == Rewrite(script.source, edits);
        EditsAre(w, script, calls, edits, inline, reading);
      }
    }
  }

  lemma {:induction false} InliningIs(w: World, script: Script, text: string, depth: nat)
    ensures IsInlining(w, script, text, depth) <==> Unfold(w, script, depth) == Some(text)
    decreases depth
  {
    hide Assemble, IsAssembled;
    if depth > 0 {
      var reading: Reading := (d, t) => IsInlining(w, d, t, depth - 1);
      forall d, t: string
        ensures reading(d, t) <==> Below(w, depth - 1)(d) == Some(t)
      {
        InliningIs(w, d, t, depth - 1);
      }
      AssembledIs(w, script, text, Below(w, depth - 1), reading);
      UnfoldIs(w, script, depth);
    }
  }

  // Unfolding deeper changes nothing once it succeeds.
  lemma {:induction false} UnfoldSettles(w: World, script: Script, a: nat, b: nat)
    requires a <= b && Unfold(w, script, a).Some?
    ensures Unfold(w, script, b) == Unfold(w, script, a)
    decreases a
  {
    hide Depends, Broken, Unfold, Assemble;
    NothingAtZero(w, script);
    UnfoldFails(w, script, a);
    forall d | Depends(w, script, d)
      ensures Unfold(w, d, b - 1) == Unfold(w, d, a - 1)
    {
      UnfoldSettles(w, d, a - 1, b - 1);
    }
    UnfoldIs(w, script, a);
    UnfoldIs(w, script, b);
    AssembleAgrees(w, script, Below(w, a - 1), Below(w, b - 1));
  }

  lemma NothingAtZero(w: World, script: Script)
    ensures Unfold(w, script, 0).None?
  {}

  // The materializer returns a text exactly when it is the inlining of the entry and no chain from the entry holds
  // two different scripts of one URL.
  lemma EntryIsInlining(w: World, entry: Script, text: string)
    ensures MaterializeEntry(w, entry) == Some(text)
       <==> OneSourceOnChains(w, entry) && exists depth: nat :: IsInlining(w, entry, text, depth)
  {
    hide MaterializeEntry, Unfold, OneSourceOnChains, IsInlining;
    var enough := |AllUrls(w, entry)| + 1;
    SucceedsIffUnfolds(w, entry);
    InliningIs(w, entry, text, enough);
    if MaterializeEntry(w, entry).Some? {
      EntryUnfolds(w, entry, enough);
    }
    if depth: nat :| IsInlining(w, entry, text, depth) {
      InliningIs(w, entry, text, depth);
      if MaterializeEntry(w, entry).Some? {
        var deeper := if depth < enough then enough else depth;
        UnfoldSettles(w, entry, depth, deeper);
        UnfoldSettles(w, entry, enough, deeper);
      }
    }
  }
}
