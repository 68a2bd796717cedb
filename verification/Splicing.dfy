/** Replacing spans of a source text from right to left
    (frontend/extension-assets/extension_webview_worker_modules.ts). */
module Splicing {
  /** The characters start .. end of a text. */
  datatype Span = Span(start: nat, end: nat)

  /** Replace the characters of `span` by `text`. */
  datatype Edit = Edit(span: Span, text: string)

  function Clamp(index: nat, length: nat): nat {
    if index < length then index else length
  }

  /** One splice; positions past the end are clamped to it. */
  function ApplyEdit(output: string, edit: Edit): string {
    output[..Clamp(edit.span.start, |output|)] + edit.text + output[Clamp(edit.span.end, |output|)..]
  }

  function ApplyInOrder(source: string, edits: seq<Edit>): string {
    if edits == [] then source
    else ApplyEdit(ApplyInOrder(source, edits[..|edits| - 1]), edits[|edits| - 1])
  }

  function InsertByStart(edit: Edit, edits: seq<Edit>): seq<Edit> {
    if edits == [] || edit.span.start >= edits[0].span.start then [edit] + edits
    else [edits[0]] + InsertByStart(edit, edits[1..])
  }

  /** The stable sort by start, greatest first. */
  function SortByStart(edits: seq<Edit>): seq<Edit> {
    if edits == [] then [] else InsertByStart(edits[0], SortByStart(edits[1..]))
  }

  /** Sorts the edits from right to left and applies them one after the other. */
  function Rewrite(source: string, edits: seq<Edit>): string {
    ApplyInOrder(source, SortByStart(edits))
  }

  // -------------------------------------------------------------------------
  // Simultaneous substitution
  // -------------------------------------------------------------------------

  predicate InSource(source: string, edit: Edit) {
    edit.span.start < edit.span.end <= |source|
  }

  predicate Apart(a: Span, b: Span) {
    a.end <= b.start || b.end <= a.start
  }

  // Nonempty spans of the source, pairwise disjoint.
  ghost predicate Disjoint(source: string, edits: set<Edit>) {
    && (forall e | e in edits :: InSource(source, e))
    && (forall a, b | a in edits && b in edits && a != b :: Apart(a.span, b.span))
  }

  ghost predicate PairwiseDisjoint(source: string, edits: seq<Edit>) {
    && (forall k | 0 <= k < |edits| :: InSource(source, edits[k]))
    && (forall i, j | 0 <= i < j < |edits| :: Apart(edits[i].span, edits[j].span))
  }

  /** The source from position `at` on, with every span of `edits` replaced: a span that begins here
      contributes its text, any other character stands for itself. */
  ghost function Substituted(source: string, edits: set<Edit>, at: nat): string
    requires Disjoint(source, edits) && at <= |source|
    decreases |source| - at
  {
    if at == |source| then []
    else if exists e :: e in edits && e.span.start == at then
      var e :| e in edits && e.span.start == at;
      e.text + Substituted(source, edits, e.span.end)
    else [source[at]] + Substituted(source, edits, at + 1)
  }

  // At most one span begins at a position.
  lemma SubstitutedSpan(source: string, edits: set<Edit>, e: Edit)
    requires Disjoint(source, edits) && e in edits
    ensures e.span.start < e.span.end <= |source|
    ensures Substituted(source, edits, e.span.start) == e.text + Substituted(source, edits, e.span.end)
  {
    assert forall x | x in edits && x.span.start == e.span.start :: x == e;
  }

  lemma SubstitutedCharacter(source: string, edits: set<Edit>, at: nat)
    requires Disjoint(source, edits) && at < |source| && forall e | e in edits :: e.span.start != at
    ensures Substituted(source, edits, at) == [source[at]] + Substituted(source, edits, at + 1)
  {}

  lemma SubstitutedEnd(source: string, edits: set<Edit>)
    requires Disjoint(source, edits)
    ensures Substituted(source, edits, |source|) == []
  {}

  lemma {:induction false} SubstitutedGap(source: string, edits: set<Edit>, at: nat, to: nat)
    requires Disjoint(source, edits) && at <= to <= |source|
    requires forall e | e in edits :: !(at <= e.span.start < to)
    ensures Substituted(source, edits, at) == source[at..to] + Substituted(source, edits, to)
    decreases |source| - at
  {
    hide Substituted, Disjoint;
    if at < to {
      SubstitutedCharacter(source, edits, at);
      SubstitutedGap(source, edits, at + 1, to);
    }
  }

  lemma DisjointPart(source: string, edits: set<Edit>, edit: Edit)
    requires Disjoint(source, edits + {edit})
    ensures Disjoint(source, edits)
  {}

  // Adding a span that begins elsewhere changes nothing at a position.
  lemma SameCharacter(source: string, edits: set<Edit>, edit: Edit, at: nat)
    requires Disjoint(source, edits) && Disjoint(source, edits + {edit})
    requires at < |source| && edit.span.start != at && forall e | e in edits :: e.span.start != at
    ensures Substituted(source, edits, at) == [source[at]] + Substituted(source, edits, at + 1)
    ensures Substituted(source, edits + {edit}, at) == [source[at]] + Substituted(source, edits + {edit}, at + 1)
  {
    hide Disjoint;
    SubstitutedCharacter(source, edits, at);
    SubstitutedCharacter(source, edits + {edit}, at);
  }

  lemma SameSpan(source: string, edits: set<Edit>, edit: Edit, e: Edit)
    requires Disjoint(source, edits) && Disjoint(source, edits + {edit}) && e in edits
    ensures e.span.start < e.span.end <= |source|
    ensures Substituted(source, edits, e.span.start) == e.text + Substituted(source, edits, e.span.end)
    ensures Substituted(source, edits + {edit}, e.span.start) == e.text + Substituted(source, edits + {edit}, e.span.end)
  {
    hide Disjoint, Substituted;
    SubstitutedSpan(source, edits, e);
    SubstitutedSpan(source, edits + {edit}, e);
  }

  lemma {:induction false} SubstitutedBeyond(source: string, edits: set<Edit>, edit: Edit, at: nat)
    requires Disjoint(source, edits + {edit}) && edit.span.start < at <= |source|
    ensures Disjoint(source, edits)
    ensures Substituted(source, edits + {edit}, at) == Substituted(source, edits, at)
    decreases |source| - at
  {
    hide Substituted, Disjoint;
    DisjointPart(source, edits, edit);
    if at == |source| {
      SubstitutedEnd(source, edits);
      SubstitutedEnd(source, edits + {edit});
    } else if e :| e in edits && e.span.start == at {
      SameSpan(source, edits, edit, e);
      SubstitutedBeyond(source, edits, edit, e.span.end);
    } else {
      SameCharacter(source, edits, edit, at);
      SubstitutedBeyond(source, edits, edit, at + 1);
    }
  }

  ghost function SetOf(edits: seq<Edit>): set<Edit> {
    set e | e in edits
  }

  ghost predicate Descending(edits: seq<Edit>) {
    forall i, j | 0 <= i < j < |edits| :: edits[i].span.start >= edits[j].span.start
  }

  lemma SetIsDisjoint(source: string, edits: seq<Edit>)
    requires PairwiseDisjoint(source, edits)
    ensures Disjoint(source, SetOf(edits))
  {
    forall a, b | a in SetOf(edits) && b in SetOf(edits) && a != b
      ensures Apart(a.span, b.span)
    {
      var i, j :| 0 <= i < |edits| && 0 <= j < |edits| && edits[i] == a && edits[j] == b;
      assert Apart(edits[i].span, edits[j].span) || Apart(edits[j].span, edits[i].span);
    }
  }

  /** Where the edits applied so far begin. */
  ghost function Frontier(source: string, edits: seq<Edit>): nat {
    if edits == [] then |source| else edits[|edits| - 1].span.start
  }

  lemma LastEdit(source: string, edits: seq<Edit>)
    requires PairwiseDisjoint(source, edits) && Descending(edits) && edits != []
    ensures var init, last := edits[..|edits| - 1], edits[|edits| - 1];
            && PairwiseDisjoint(source, init) && Descending(init)
            && SetOf(edits) == SetOf(init) + {last} && last !in SetOf(init)
            && last.span.end <= Frontier(source, init) <= |source|
            && (forall x | x in SetOf(init) :: Frontier(source, init) <= x.span.start)
  {
    var n := |edits| - 1;
    assert n > 0 ==> Apart(edits[n - 1].span, edits[n].span);
    FirstEdit(source, edits[..n]);
  }

  lemma FirstEdit(source: string, edits: seq<Edit>)
    requires Descending(edits) && PairwiseDisjoint(source, edits)
    ensures forall e | e in edits :: Frontier(source, edits) <= e.span.start
  {}

  // After the edits from the right, the text is untouched up to the frontier and substituted after it.
  lemma {:induction false} RightToLeft(source: string, edits: seq<Edit>)
    requires PairwiseDisjoint(source, edits) && Descending(edits)
    ensures Disjoint(source, SetOf(edits)) && Frontier(source, edits) <= |source|
    ensures var at := Frontier(source, edits);
            ApplyInOrder(source, edits) == source[..at] + Substituted(source, SetOf(edits), at)
  {
    SetIsDisjoint(source, edits);
    if edits == [] {
      assert source[..|source|] == source;
    } else {
      var init, e := edits[..|edits| - 1], edits[|edits| - 1];
      LastEdit(source, edits);
      var at := Frontier(source, init);
      hide PairwiseDisjoint, Descending, SetOf, Disjoint, ApplyEdit, Substituted;
      SetIsDisjoint(source, init);
      RightToLeft(source, init);
      FrontierStep(source, SetOf(init), e, at);
      SpliceBefore(source, Substituted(source, SetOf(init), at), e, at);
    }
  }

  lemma SpliceBefore(source: string, rest: string, e: Edit, at: nat)
    requires e.span.start < e.span.end <= at <= |source|
    ensures ApplyEdit(source[..at] + rest, e) == source[..e.span.start] + (e.text + (source[e.span.end..at] + rest))
  {
    var output := source[..at] + rest;
    assert output[..e.span.start] == source[..e.span.start];
    assert output[e.span.end..] == source[e.span.end..at] + rest;
  }

  lemma FrontierStep(source: string, before: set<Edit>, e: Edit, at: nat)
    requires Disjoint(source, before + {e}) && Disjoint(source, before) && e !in before
    requires e.span.end <= at <= |source| && forall x | x in before :: at <= x.span.start
    ensures Substituted(source, before + {e}, e.span.start) == e.text + (source[e.span.end..at] + Substituted(source, before, at))
  {
    hide Substituted;
    SubstitutedSpan(source, before + {e}, e);
    SubstitutedBeyond(source, before, e, e.span.end);
    SubstitutedGap(source, before, e.span.end, at);
  }

  // -------------------------------------------------------------------------
  // Sorting
  // -------------------------------------------------------------------------

  lemma {:induction false} InsertKeepsEdits(edit: Edit, edits: seq<Edit>)
    ensures multiset(InsertByStart(edit, edits)) == multiset{edit} + multiset(edits)
  {
    if edits != [] {
      InsertKeepsEdits(edit, edits[1..]);
      assert edits == [edits[0]] + edits[1..];
    }
  }

  lemma DescendingCons(edit: Edit, edits: seq<Edit>)
    requires Descending(edits) && forall e | e in multiset(edits) :: edit.span.start >= e.span.start
    ensures Descending([edit] + edits)
  {
    assert forall k | 0 <= k < |edits| :: edits[k] in multiset(edits);
  }

  lemma {:induction false} InsertDescending(edit: Edit, edits: seq<Edit>)
    requires Descending(edits)
    ensures Descending(InsertByStart(edit, edits))
  {
    if edits != [] && edit.span.start < edits[0].span.start {
      InsertDescending(edit, edits[1..]);
      InsertKeepsEdits(edit, edits[1..]);
      assert forall e | e in multiset(edits[1..]) :: edits[0].span.start >= e.span.start;
      DescendingCons(edits[0], InsertByStart(edit, edits[1..]));
    }
  }

  lemma {:induction false} SortDescending(edits: seq<Edit>)
    ensures Descending(SortByStart(edits)) && multiset(SortByStart(edits)) == multiset(edits)
  {
    if edits != [] {
      SortDescending(edits[1..]);
      InsertDescending(edits[0], SortByStart(edits[1..]));
      InsertKeepsEdits(edits[0], SortByStart(edits[1..]));
      assert edits == [edits[0]] + edits[1..];
    }
  }

  // One edit is disjoint from all of a list.
  predicate ApartFrom(edit: Edit, edits: seq<Edit>) {
    forall k | 0 <= k < |edits| :: Apart(edit.span, edits[k].span)
  }

  lemma DisjointUncons(source: string, edit: Edit, edits: seq<Edit>)
    requires PairwiseDisjoint(source, [edit] + edits)
    ensures InSource(source, edit) && ApartFrom(edit, edits) && PairwiseDisjoint(source, edits)
  {
    hide Apart, InSource;
    var all := [edit] + edits;
    assert InSource(source, all[0]);
    forall k | 0 <= k < |edits|
      ensures InSource(source, edits[k]) && Apart(edit.span, edits[k].span)
    {
      assert InSource(source, all[k + 1]) && Apart(all[0].span, all[k + 1].span);
    }
    forall i, j | 0 <= i < j < |edits|
      ensures Apart(edits[i].span, edits[j].span)
    {
      assert Apart(all[i + 1].span, all[j + 1].span);
    }
  }

  lemma DisjointCons(source: string, edit: Edit, edits: seq<Edit>)
    requires InSource(source, edit) && ApartFrom(edit, edits) && PairwiseDisjoint(source, edits)
    ensures PairwiseDisjoint(source, [edit] + edits)
  {
    hide Apart, InSource;
    var all := [edit] + edits;
    forall k | 0 <= k < |all|
      ensures InSource(source, all[k])
    {
      assert k > 0 ==> all[k] == edits[k - 1];
    }
    forall i, j | 0 <= i < j < |all|
      ensures Apart(all[i].span, all[j].span)
    {
      assert all[j] == edits[j - 1];
      assert i > 0 ==> all[i] == edits[i - 1];
    }
  }

  lemma ApartFromSame(edit: Edit, a: seq<Edit>, b: seq<Edit>)
    requires ApartFrom(edit, a) && multiset(a) == multiset(b)
    ensures ApartFrom(edit, b)
  {
    forall k | 0 <= k < |b|
      ensures Apart(edit.span, b[k].span)
    {
      assert b[k] in multiset(b);
      assert b[k] in a;
    }
  }

  lemma {:induction false} InsertDisjoint(source: string, edit: Edit, edits: seq<Edit>)
    requires InSource(source, edit) && ApartFrom(edit, edits) && PairwiseDisjoint(source, edits)
    ensures PairwiseDisjoint(source, InsertByStart(edit, edits))
  {
    if edits == [] || edit.span.start >= edits[0].span.start {
      DisjointCons(source, edit, edits);
    } else {
      var tail := edits[1..];
      assert edits == [edits[0]] + tail;
      DisjointUncons(source, edits[0], tail);
      assert ApartFrom(edit, tail) && Apart(edit.span, edits[0].span);
      assert ApartFrom(edits[0], [edit] + tail);
      hide PairwiseDisjoint;
      InsertDisjoint(source, edit, tail);
      InsertKeepsEdits(edit, tail);
      ApartFromSame(edits[0], [edit] + tail, InsertByStart(edit, tail));
      DisjointCons(source, edits[0], InsertByStart(edit, tail));
    }
  }

  lemma {:induction false} SortDisjoint(source: string, edits: seq<Edit>)
    requires PairwiseDisjoint(source, edits)
    ensures PairwiseDisjoint(source, SortByStart(edits))
  {
    if edits != [] {
      assert edits == [edits[0]] + edits[1..];
      DisjointUncons(source, edits[0], edits[1..]);
      SortDisjoint(source, edits[1..]);
      SortDescending(edits[1..]);
      ApartFromSame(edits[0], edits[1..], SortByStart(edits[1..]));
      InsertDisjoint(source, edits[0], SortByStart(edits[1..]));
    }
  }

  // Splicing disjoint spans from right to left is simultaneous substitution.
  lemma RewriteIsSubstitution(source: string, edits: seq<Edit>)
    requires PairwiseDisjoint(source, edits)
    ensures Disjoint(source, SetOf(edits))
    ensures Rewrite(source, edits) == Substituted(source, SetOf(edits), 0)
  {
    var sorted := SortByStart(edits);
    SetIsDisjoint(source, edits);
    SortDisjoint(source, edits);
    SortDescending(edits);
    assert SetOf(sorted) == SetOf(edits) by {
      assert forall e :: e in sorted <==> e in multiset(sorted);
      assert forall e :: e in edits <==> e in multiset(edits);
    }
    RightToLeft(source, sorted);
    var at := Frontier(source, sorted);
    FirstEdit(source, sorted);
    SubstitutedGap(source, SetOf(sorted), 0, at);
    assert source[0..at] == source[..at];
  }

  // The order in which the spans were collected does not matter.
  lemma RewriteIgnoresOrder(source: string, a: seq<Edit>, b: seq<Edit>)
    requires PairwiseDisjoint(source, a) && PairwiseDisjoint(source, b) && multiset(a) == multiset(b)
    ensures Rewrite(source, a) == Rewrite(source, b)
  {
    hide Rewrite;
    RewriteIsSubstitution(source, a);
    RewriteIsSubstitution(source, b);
    assert SetOf(a) == SetOf(b) by {
      assert forall e :: e in a <==> e in multiset(a);
      assert forall e :: e in b <==> e in multiset(b);
    }
  }
}
