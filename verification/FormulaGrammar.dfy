/** Exactly which formulas the compiler accepts. */
module FormulaGrammar {
  import opened Basics
  import opened Oids
  import opened Formulas
  import opened FormulaAgreement

  /** What a formula may look like. */
  predicate WellFormed(e: Expr) {
    match e
    case Constant(value) => value.IntLit? || value.RealLit?
    case Name(id) => id == "KiB" || id == "MiB" || id == "GiB"
    case Unary(op, operand) => (op.UAdd? || op.USub?) && WellFormed(operand)
    case Binary(op, left, right) => (op.Add? || op.Sub? || op.Mult? || op.Div?) && WellFormed(left) && WellFormed(right)
    case Call(func, args, keywords) =>
      && func.Name? && !keywords
      && if func.id == "oid" then OneText(args)
         else if func.id in {"hr_storage_total_bytes", "hr_storage_used_bytes", "hr_storage_free_bytes",
                             "hr_storage_free_percent"} then OneIndex(args)
         else
           && (forall i :: 0 <= i < |args| ==> WellFormed(args[i]))
           && (func.id == "min" || func.id == "max" || func.id == "abs" || func.id == "round")
           && (func.id == "min" || func.id == "max" ==> |args| >= 2)
           && (func.id == "abs" ==> |args| == 1)
           && (func.id == "round" ==> |args| == 1 || (|args| == 2 && PlaceCount(args[1])))
    case OtherNode => false
  }

  /** One argument, the text of an identifier. */
  predicate OneText(args: seq<Expr>) {
    |args| == 1 && args[0].Constant? && args[0].value.TextLit? && CanonicalOid(args[0].value.text).Some?
  }

  /** One argument, the literal index of a storage row. */
  predicate OneIndex(args: seq<Expr>) {
    |args| == 1 && args[0].Constant? && args[0].value.IntLit? && 1 <= args[0].value.n <= 2_147_483_647
  }

  /** A literal from 0 to 9. */
  predicate PlaceCount(e: Expr) {
    e.Constant? && e.value.IntLit? && 0 <= e.value.n <= 9
  }

  // ---------------------------------------------------------------- counting sources

  lemma {:induction false} DistinctCount(s: seq<string>)
    requires Distinct(s)
    ensures |Elements(s)| == |s|
  {
    if s != [] {
      var front, last := s[..|s| - 1], s[|s| - 1];
      DistinctCount(front);
      assert s == front + [last];
      assert Elements(s) == Elements(front) + {last} && last !in Elements(front);
    }
  }

  lemma FewerElements(a: set<string>, b: set<string>)
    requires a <= b
    ensures |a| <= |b|
  {
    assert b == a + (b - a);
  }

  /** A source can be added as long as at most sixteen different ones come together. */
  lemma AddSourceExactly(sources: seq<string>, oid: string)
    requires Collected(sources)
    ensures AddSource(sources, oid).Ok? <==> |Elements(sources) + {oid}| <= 16
  {
    var added := if oid in sources then sources else sources + [oid];
    assert Distinct(added);
    DistinctCount(added);
    assert Elements(added) == Elements(sources) + {oid};
  }

  lemma {:induction false} AddSourcesExactly(sources: seq<string>, oids: seq<string>)
    requires Collected(sources)
    ensures AddSources(sources, oids).Ok? <==> |Elements(sources) + Elements(oids)| <= 16
  {
    hide AddSource, Collected;
    if oids == [] {
      StillCollected(sources);
      assert Elements(sources) + Elements(oids) == Elements(sources);
    } else {
      var front, last := oids[..|oids| - 1], oids[|oids| - 1];
      AddSourcesExactly(sources, front);
      assert oids == front + [last];
      assert Elements(sources) + Elements(oids) == Elements(sources) + Elements(front) + {last};
      FewerElements(Elements(sources) + Elements(front), Elements(sources) + Elements(oids));
      if AddSources(sources, front).Ok? {
        AddSourcesCollects(sources, front);
        AddSourceExactly(AddSources(sources, front).value, last);
      }
    }
  }

  lemma StillCollected(sources: seq<string>)
    requires Collected(sources)
    ensures |Elements(sources)| <= 16
  {
    DistinctCount(sources);
  }

  // ---------------------------------------------------------------- the validator

  lemma {:induction false} ValidateExactly(e: Expr, sources: seq<string>)
    requires Collected(sources)
    ensures Validate(e, sources).Ok? <==> WellFormed(e) && |Elements(sources) + Mentions(e)| <= 16
    decreases e, 1
  {
    hide AddSources, AddSource, CanonicalOid, StorageOids, Collected;
    StillCollected(sources);
    assert Elements(sources) + {} == Elements(sources);
    match e
    case Unary(_, operand) => ValidateExactly(operand, sources);
    case Binary(_, left, right) =>
      ValidateExactly(left, sources);
      FewerElements(Elements(sources) + Mentions(left), Elements(sources) + Mentions(e));
      if Validate(left, sources).Ok? {
        ValidateCollects(left, sources);
        ValidateExactly(right, Validate(left, sources).value);
        assert Elements(sources) + Mentions(left) + Mentions(right) == Elements(sources) + Mentions(e);
      }
    case Call(_, _, _) => CallAccepted(e, sources);
    case _ =>
  }

  lemma CallAccepted(e: Expr, sources: seq<string>)
    requires Collected(sources) && e.Call?
    ensures Validate(e, sources).Ok? <==> WellFormed(e) && |Elements(sources) + Mentions(e)| <= 16
    decreases e, 0
  {
    hide AddSources, AddSource, CanonicalOid, StorageOids, Collected, ValidateOid, ValidateStorage, ValidateAll,
         MentionsAll;
    StillCollected(sources);
    assert Elements(sources) + {} == Elements(sources);
    if e.func.Name? && e.func.id == "oid" {
      OidAccepted(e.args, sources);
    } else if e.func.Name? && e.func.id in STORAGE_FUNCTIONS {
      StorageAccepted(e.args, sources);
    } else {
      ValidateAllExactly(e.args, sources);
    }
  }

  lemma OidAccepted(args: seq<Expr>, sources: seq<string>)
    requires Collected(sources)
    ensures ValidateOid(args, sources).Ok? <==>
            OneText(args) && |Elements(sources) + {CanonicalOid(args[0].value.text).value}| <= 16
  {
    hide AddSource, CanonicalOid;
    if OneText(args) {
      AddSourceExactly(sources, CanonicalOid(args[0].value.text).value);
    }
  }

  lemma StorageAccepted(args: seq<Expr>, sources: seq<string>)
    requires Collected(sources)
    ensures |args| == 1 && args[0].Constant? && args[0].value.IntLit? ==>
              (OneIndex(args) <==> StorageOids(args[0].value.n).Some?)
    ensures ValidateStorage(args, sources).Ok? <==>
            OneIndex(args) && |Elements(sources) + Elements(StorageOids(args[0].value.n).value)| <= 16
  {
    hide AddSources;
    if OneIndex(args) {
      AddSourcesExactly(sources, StorageOids(args[0].value.n).value);
    }
  }

  lemma {:induction false} ValidateAllExactly(es: seq<Expr>, sources: seq<string>)
    requires Collected(sources)
    ensures ValidateAll(es, sources).Ok? <==>
            (forall i :: 0 <= i < |es| ==> WellFormed(es[i])) && |Elements(sources) + MentionsAll(es)| <= 16
    decreases es, 0
  {
    hide Collected, WellFormed, Validate, Mentions;
    if es == [] {
      StillCollected(sources);
      assert Elements(sources) + {} == Elements(sources);
    } else {
      ValidateExactly(es[0], sources);
      FewerElements(Elements(sources) + Mentions(es[0]), Elements(sources) + MentionsAll(es));
      if Validate(es[0], sources).Ok? {
        ValidateCollects(es[0], sources);
        ValidateAllExactly(es[1..], Validate(es[0], sources).value);
        assert Elements(sources) + Mentions(es[0]) + MentionsAll(es[1..]) == Elements(sources) + MentionsAll(es);
        assert forall i :: 1 <= i < |es| ==> es[i] == es[1..][i - 1];
      }
    }
  }

  /**
   * A formula compiles exactly when its stripped text has 1 to 2000 characters, it parses, what it parses to
   * is well formed, and it mentions at most sixteen different sources.
   */
  lemma CompilesExactly(expression: string, parsed: Option<Expr>)
    ensures Compile(expression, parsed).Ok? <==>
            && 1 <= |Strip(expression)| <= 2000
            && parsed.Some? && WellFormed(parsed.value) && |Mentions(parsed.value)| <= 16
    ensures Compile(expression, parsed).Ok? ==>
              var f := Compile(expression, parsed).value; f.expression == Strip(expression) && Some(f.tree) == parsed
  {
    hide Validate, WellFormed, Mentions, Strip;
    if parsed.Some? {
      ValidateExactly(parsed.value, []);
      assert Elements([]) + Mentions(parsed.value) == Mentions(parsed.value);
    }
  }
}
