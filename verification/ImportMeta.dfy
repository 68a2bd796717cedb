/** Replacing import.meta in a worker module by a fresh module-local binding
    (frontend/extension-assets/extension_webview_worker_modules.ts). */
module ImportMeta {
  import opened Decimal
  import opened Splicing

  /** A location the module lexer reports; -2 marks an import.meta. */
  datatype ModuleImport = ModuleImport(s: nat, e: nat, d: int)

  const META: int := -2

  predicate OccursAt(source: string, word: string, at: nat) {
    at + |word| <= |source| && source[at..at + |word|] == word
  }

  predicate Contains(source: string, word: string) {
    exists at | 0 <= at <= |source| :: OccursAt(source, word, at)
  }

  function Binding(suffix: nat): string {
    "__ringsWorkerImportMeta" + Numeral(suffix)
  }

  lemma BindingTooLong(source: string, suffix: nat)
    requires suffix >= Power10(|source|)
    ensures !Contains(source, Binding(suffix))
  {
    NumeralLength(suffix, |source|);
  }

  /** The first suffix from `suffix` on whose name does not occur in the source. */
  function FreshSuffix(source: string, suffix: nat): (chosen: nat)
    ensures chosen >= suffix && !Contains(source, Binding(chosen))
    ensures forall k | suffix <= k < chosen :: Contains(source, Binding(k))
    decreases if suffix < Power10(|source|) then Power10(|source|) - suffix else 0
  {
    if suffix >= Power10(|source|) then
      BindingTooLong(source, suffix);
      suffix
    else if Contains(source, Binding(suffix)) then FreshSuffix(source, suffix + 1)
    else suffix
  }

  /** The first candidate name that does not occur in the source. */
  method ImportMetaBinding(source: string) returns (binding: string)
    ensures binding == Binding(FreshSuffix(source, 0))
    ensures !Contains(source, binding)
  {
    hide Power10, Binding, Contains;
    var suffix := 0;
    BindingTooLong(source, Power10(|source|));
    while Contains(source, Binding(suffix))
      invariant suffix <= Power10(|source|)
      invariant FreshSuffix(source, 0) == FreshSuffix(source, suffix)
      decreases Power10(|source|) - suffix
    {
      suffix := suffix + 1;
    }
    binding := Binding(suffix);
  }

  function MetaEdits(imports: seq<ModuleImport>, binding: string): seq<Edit> {
    if imports == [] then []
    else (if imports[0].d == META then [Edit(Span(imports[0].s, imports[0].e), binding)] else [])
         + MetaEdits(imports[1..], binding)
  }

  /** The declaration of the metadata object of a module at the quoted URL. */
  function Declaration(binding: string, quoted: string): string {
    "const " + binding + "={__proto__:null,url:" + quoted
    + ",resolve:(value)=>new URL(String(value)," + quoted + ").href};"
  }

  /** The module with every import.meta replaced by the binding, after its declaration. */
  function RewriteImportMeta(source: string, quoted: string, imports: seq<ModuleImport>): string {
    var binding := Binding(FreshSuffix(source, 0));
    var edits := MetaEdits(imports, binding);
    if edits == [] then source
    else Declaration(binding, quoted) + "\n" + Rewrite(source, edits)
  }

  lemma {:induction false} MetaEditsExact(imports: seq<ModuleImport>, binding: string)
    ensures forall e :: e in MetaEdits(imports, binding) <==>
              e.text == binding && ModuleImport(e.span.start, e.span.end, META) in imports
  {
    if imports != [] {
      MetaEditsExact(imports[1..], binding);
      assert forall i :: i in imports <==> i == imports[0] || i in imports[1..];
    }
  }

  // What the lexer guarantees of the import.meta locations.
  ghost predicate MetaSpansApart(source: string, imports: seq<ModuleImport>) {
    && (forall k | 0 <= k < |imports| && imports[k].d == -2 :: imports[k].s < imports[k].e <= |source|)
    && (forall i, j | 0 <= i < j < |imports| && imports[i].d == -2 && imports[j].d == -2 ::
          imports[i].e <= imports[j].s || imports[j].e <= imports[i].s)
  }

  lemma {:induction false} MetaEditsDisjoint(source: string, imports: seq<ModuleImport>, binding: string)
    requires MetaSpansApart(source, imports)
    ensures PairwiseDisjoint(source, MetaEdits(imports, binding))
  {
    if imports != [] {
      var rest := MetaEdits(imports[1..], binding);
      MetaEditsDisjoint(source, imports[1..], binding);
      if imports[0].d == META {
        var first := Edit(Span(imports[0].s, imports[0].e), binding);
        FirstApart(source, imports, binding);
        hide MetaSpansApart;
        DisjointCons(source, first, rest);
      }
    }
  }

  lemma FirstApart(source: string, imports: seq<ModuleImport>, binding: string)
    requires MetaSpansApart(source, imports) && imports != [] && imports[0].d == META
    ensures ApartFrom(Edit(Span(imports[0].s, imports[0].e), binding), MetaEdits(imports[1..], binding))
  {
    var rest := MetaEdits(imports[1..], binding);
    MetaEditsExact(imports[1..], binding);
    forall k | 0 <= k < |rest|
      ensures Apart(Span(imports[0].s, imports[0].e), rest[k].span)
    {
      assert rest[k] in rest;
      var i :| 0 <= i < |imports[1..]| && imports[1..][i] == ModuleImport(rest[k].span.start, rest[k].span.end, META);
      assert imports[i + 1] == imports[1..][i];
    }
  }

  // Every import.meta, which the lexer marks by -2, is replaced at once by the first of the names
  // __ringsWorkerImportMeta0, __ringsWorkerImportMeta1, ... that the authored source does not contain; a module with
  // one begins with the declaration of that name, on a line of its own.
  lemma ImportMetaReplaced(source: string, quoted: string, imports: seq<ModuleImport>)
    requires MetaSpansApart(source, imports)
    ensures var suffix := FreshSuffix(source, 0);
            var binding := "__ringsWorkerImportMeta" + Numeral(suffix);
            var edits := MetaEdits(imports, binding);
            && !Contains(source, binding)
            && (forall k: nat | k < suffix :: Contains(source, "__ringsWorkerImportMeta" + Numeral(k)))
            && (forall e :: e in edits <==> e.text == binding && ModuleImport(e.span.start, e.span.end, -2) in imports)
            && Disjoint(source, SetOf(edits))
            && RewriteImportMeta(source, quoted, imports)
               == (if edits == [] then ""
                   else "const " + binding + "={__proto__:null,url:" + quoted + ",resolve:(value)=>new URL(String(value),"
                        + quoted + ").href};\n")
                  + Substituted(source, SetOf(edits), 0)
  {
    var binding := Binding(FreshSuffix(source, 0));
    var edits := MetaEdits(imports, binding);
    hide Contains, Rewrite, Numeral;
    forall k: nat | k < FreshSuffix(source, 0)
      ensures Contains(source, "__ringsWorkerImportMeta" + Numeral(k))
    {
      assert Contains(source, Binding(k));
    }
    MetaEditsExact(imports, binding);
    MetaEditsDisjoint(source, imports, binding);
    RewriteIsSubstitution(source, edits);
    if edits == [] {
      SubstitutedGap(source, {}, 0, |source|);
      assert SetOf(edits) == {} && source[0..|source|] == source;
    } else {
      DeclarationIs(binding, quoted);
    }
  }

  lemma DeclarationIs(binding: string, quoted: string)
    ensures Declaration(binding, quoted) + "\n"
         == "const " + binding + "={__proto__:null,url:" + quoted + ",resolve:(value)=>new URL(String(value)," + quoted
            + ").href};\n"
  {
    assert ").href};" + "\n" == ").href};\n";
  }
}
