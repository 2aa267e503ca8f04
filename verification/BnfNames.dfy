/**
 The BNF of lib/glog/demangle.cc where the code deviates from it: nested names, whose BNF is
 left-recursive, against the merged prefix that is read, and source-names of any sign.
 */
module BnfNames {
  import opened Grammar
  import opened GrammarSteps
  import opened SimpleNames

  /** Derivations go forward, and a rule that starts with something consumes something. */
  least lemma DerivesForward(t: Tables, r: Rule, s: string, i: nat, j: nat)
    requires Derives(t, r, s, i, j)
    ensures i <= j && (Leads(r, TOP) ==> i < j)
  {
    match r
    case Fail =>
    case Done =>
    case Then(item, rest) =>
      var k: nat :| Produces(t, item, s, i, k) && Derives(t, rest, s, k, j);
      ProducesForward(t, item, s, i, k);
      DerivesForward(t, rest, s, k, j);
    case Or(first, others) =>
      if Derives(t, first, s, i, j) {
        DerivesForward(t, first, s, i, j);
      } else {
        DerivesForward(t, others, s, i, j);
      }
  }

  least lemma ProducesForward(t: Tables, item: Item, s: string, i: nat, j: nat)
    requires Produces(t, item, s, i, j)
    ensures i <= j && (!item.Maybe? ==> i < j)
  {
    match item
    case Use(q) =>
      RuleLeads(q);
      DerivesForward(t, RuleOf(q), s, i, j);
    case Maybe(it) =>
      if i != j { ProducesForward(t, it, s, i, j); }
    case Many(q) =>
      RuleLeads(q);
      var k: nat :| Derives(t, RuleOf(q), s, i, k) && (k == j || Produces(t, item, s, k, j));
      DerivesForward(t, RuleOf(q), s, i, k);
      if k != j { ProducesForward(t, item, s, k, j); }
    case _ =>
  }

  lemma RuleLeads(p: Symbol)
    ensures Leads(RuleOf(p), TOP)
  {
    RulesRanked(p);
    LeadsMore(RuleOf(p), Rank(p));
  }

  lemma {:induction false} LeadsMore(r: Rule, rank: nat)
    requires Leads(r, rank) && rank <= TOP
    ensures Leads(r, TOP)
  {
    if r.Or? {
      LeadsMore(r.first, rank);
      LeadsMore(r.others, rank);
    }
  }

  // ---------- the BNF ----------

  /** prefix */
  least predicate BnfPrefix(t: Tables, s: string, i: nat, j: nat) {
    || i == j
    || (exists k: nat :: BnfPrefix(t, s, i, k) && Derives(t, RuleOf(UnqualifiedName), s, k, j))
    || (exists k: nat :: BnfTemplatePrefix(t, s, i, k) && Derives(t, RuleOf(TemplateArgs), s, k, j))
    || Derives(t, RuleOf(TemplateParam), s, i, j)
    || Derives(t, RuleOf(Substitution), s, i, j)
  }

  /** template-prefix */
  least predicate BnfTemplatePrefix(t: Tables, s: string, i: nat, j: nat) {
    || (exists k: nat :: BnfPrefix(t, s, i, k) && Derives(t, RuleOf(UnqualifiedName), s, k, j))
    || Derives(t, RuleOf(TemplateParam), s, i, j)
    || Derives(t, RuleOf(Substitution), s, i, j)
  }

  /** A prefix and an unqualified-name, or a template-prefix and template-args. */
  ghost predicate BnfComponents(t: Tables, s: string, i: nat, j: nat) {
    || (exists k: nat :: BnfPrefix(t, s, i, k) && Derives(t, RuleOf(UnqualifiedName), s, k, j))
    || (exists k: nat :: BnfTemplatePrefix(t, s, i, k) && Derives(t, RuleOf(TemplateArgs), s, k, j))
  }

  /** nested-name */
  ghost predicate BnfNestedName(t: Tables, s: string, i: nat, j: nat) {
    i + 1 < j <= |s| && s[i] == 'N' && BnfQualified(t, s, i + 1, j - 1) && s[j - 1] == 'E'
  }

  ghost predicate BnfQualified(t: Tables, s: string, i: nat, j: nat) {
    exists q: nat :: Produces(t, Maybe(Use(CVQualifiers)), s, i, q) && BnfComponents(t, s, q, j)
  }

  // ---------- the merged prefix covers it ----------

  ghost predicate Merged(t: Tables, s: string, i: nat, j: nat) {
    i == j || Derives(t, RuleOf(Prefix), s, i, j)
  }

  lemma OneDerives(t: Tables, item: Item, s: string, i: nat, j: nat)
    ensures Produces(t, item, s, i, j) ==> Derives(t, One(item), s, i, j)
    ensures Derives(t, One(item), s, i, j) ==> Produces(t, item, s, i, j)
  {
    if Produces(t, item, s, i, j) {
      assert Derives(t, Done, s, j, j);
    }
    if Derives(t, One(item), s, i, j) {
      assert Derives(t, Then(item, Done), s, i, j);
      var k: nat :| Produces(t, item, s, i, k) && Derives(t, Done, s, k, j);
      assert k == j;
    }
  }

  lemma TwoDerives(t: Tables, a: Item, b: Item, s: string, i: nat, k: nat, j: nat)
    requires Produces(t, a, s, i, k) && Produces(t, b, s, k, j)
    ensures Derives(t, Two(a, b), s, i, j)
  {
    OneDerives(t, b, s, k, j);
  }

  lemma TwoCut(t: Tables, a: Item, b: Item, s: string, i: nat, j: nat) returns (k: nat)
    requires Derives(t, Two(a, b), s, i, j)
    ensures Produces(t, a, s, i, k) && Produces(t, b, s, k, j)
  {
    k :| Produces(t, a, s, i, k) && Derives(t, One(b), s, k, j);
    OneDerives(t, b, s, k, j);
  }

  lemma OrDerives(t: Tables, a: Rule, b: Rule, s: string, i: nat, j: nat)
    ensures Derives(t, Or(a, b), s, i, j) <==> Derives(t, a, s, i, j) || Derives(t, b, s, i, j)
  {
  }

  /** A template-param, a substitution and an unqualified-name are parts. */
  lemma PartDerives(t: Tables, q: Symbol, s: string, i: nat, j: nat)
    requires q in [TemplateParam, Substitution, UnqualifiedName] && Derives(t, RuleOf(q), s, i, j)
    ensures Derives(t, RuleOf(PrefixPart), s, i, j)
  {
    PartRules();
    hide RuleOf;
    OneDerives(t, Use(q), s, i, j);
    if q == UnqualifiedName {
      OrDerives(t, One(Use(UnqualifiedName)), Two(Lit("St"), Use(UnqualifiedName)), s, i, j);
      OneDerives(t, Use(UnscopedName), s, i, j);
    }
    OrDerives(t, One(Use(Substitution)), One(Use(UnscopedName)), s, i, j);
    OrDerives(t, One(Use(TemplateParam)), Or(One(Use(Substitution)), One(Use(UnscopedName))), s, i, j);
    hide Derives, One, Two;
  }

  lemma PartRules()
    ensures RuleOf(PrefixPart) == Or(One(Use(TemplateParam)), Or(One(Use(Substitution)), One(Use(UnscopedName))))
    ensures RuleOf(UnscopedName) == Or(One(Use(UnqualifiedName)), Two(Lit("St"), Use(UnqualifiedName)))
  {
  }

  lemma PrefixRules()
    ensures RuleOf(Prefix) == Two(Many(PrefixPart), Maybe(Use(PrefixTail)))
    ensures RuleOf(PrefixTail) == Two(Use(TemplateArgs), Maybe(Use(Prefix)))
  {
  }

  /** Parts, and then nothing or template-args and a prefix. */
  lemma PrefixBuilt(t: Tables, s: string, i: nat, a: nat, b: nat, j: nat)
    requires Produces(t, Many(PrefixPart), s, i, a)
    requires a == j || (Derives(t, RuleOf(TemplateArgs), s, a, b) && Merged(t, s, b, j))
    ensures Derives(t, RuleOf(Prefix), s, i, j)
  {
    PrefixRules();
    hide RuleOf;
    if a != j {
      TwoDerives(t, Use(TemplateArgs), Maybe(Use(Prefix)), s, a, b, j);
    }
    TwoDerives(t, Many(PrefixPart), Maybe(Use(PrefixTail)), s, i, a, j);
  }

  lemma PrefixCut(t: Tables, s: string, i: nat, j: nat) returns (a: nat, b: nat)
    requires Derives(t, RuleOf(Prefix), s, i, j)
    ensures Produces(t, Many(PrefixPart), s, i, a)
    ensures a == j || (Derives(t, RuleOf(TemplateArgs), s, a, b) && Merged(t, s, b, j))
  {
    PrefixRules();
    hide RuleOf;
    a := TwoCut(t, Many(PrefixPart), Maybe(Use(PrefixTail)), s, i, j);
    b := a;
    if a != j {
      b := TwoCut(t, Use(TemplateArgs), Maybe(Use(Prefix)), s, a, j);
    }
  }

  lemma {:induction false} ManyAppended(t: Tables, q: Symbol, s: string, i: nat, m: nat, j: nat)
    requires Produces(t, Many(q), s, i, m) && Derives(t, RuleOf(q), s, m, j)
    ensures Produces(t, Many(q), s, i, j)
    decreases m - i
  {
    hide RuleOf;
    assert Produces(t, Many(q), s, m, j);
    var k: nat :| Derives(t, RuleOf(q), s, i, k) && (k == m || Produces(t, Many(q), s, k, m));
    RuleLeads(q);
    DerivesForward(t, RuleOf(q), s, i, k);
    if k != m {
      ProducesForward(t, Many(q), s, k, m);
      ManyAppended(t, q, s, k, m, j);
    }
  }

  /** A part, with or without template-args behind it, can be appended to a merged prefix. */
  lemma {:induction false} PartAppended(t: Tables, s: string, i: nat, m: nat, k: nat, j: nat)
    requires Merged(t, s, i, m) && Derives(t, RuleOf(PrefixPart), s, m, k)
    requires k == j || Derives(t, RuleOf(TemplateArgs), s, k, j)
    ensures Derives(t, RuleOf(Prefix), s, i, j)
    decreases m - i
  {
    hide RuleOf;
    if i == m {
      assert Produces(t, Many(PrefixPart), s, i, k);
      PrefixBuilt(t, s, i, k, j, j);
    } else {
      var a, b := PrefixCut(t, s, i, m);
      if a == m {
        ManyAppended(t, PrefixPart, s, i, m, k);
        PrefixBuilt(t, s, i, k, j, j);
      } else {
        ProducesForward(t, Many(PrefixPart), s, i, a);
        RuleLeads(TemplateArgs);
        DerivesForward(t, RuleOf(TemplateArgs), s, a, b);
        if b != m {
          RuleLeads(Prefix);
          DerivesForward(t, RuleOf(Prefix), s, b, m);
        }
        PartAppended(t, s, b, m, k, j);
        PrefixBuilt(t, s, i, a, b, j);
      }
    }
  }

  least lemma PrefixMerged(t: Tables, s: string, i: nat, j: nat)
    requires BnfPrefix(t, s, i, j)
    ensures Merged(t, s, i, j)
  {
    hide RuleOf;
    if i == j {
    } else if Derives(t, RuleOf(TemplateParam), s, i, j) {
      PartDerives(t, TemplateParam, s, i, j);
      PartAppended(t, s, i, i, j, j);
    } else if Derives(t, RuleOf(Substitution), s, i, j) {
      PartDerives(t, Substitution, s, i, j);
      PartAppended(t, s, i, i, j, j);
    } else if k: nat :| BnfPrefix(t, s, i, k) && Derives(t, RuleOf(UnqualifiedName), s, k, j) {
      PrefixMerged(t, s, i, k);
      PartDerives(t, UnqualifiedName, s, k, j);
      PartAppended(t, s, i, k, j, j);
    } else {
      var k: nat :| BnfTemplatePrefix(t, s, i, k) && Derives(t, RuleOf(TemplateArgs), s, k, j);
      TemplatePrefixMerged(t, s, i, k);
      var m: nat :| Merged(t, s, i, m) && Derives(t, RuleOf(PrefixPart), s, m, k);
      PartAppended(t, s, i, m, k, j);
    }
  }

  ghost predicate MergedTemplatePrefix(t: Tables, s: string, i: nat, j: nat) {
    exists m: nat :: Merged(t, s, i, m) && Derives(t, RuleOf(PrefixPart), s, m, j)
  }

  least lemma TemplatePrefixMerged(t: Tables, s: string, i: nat, j: nat)
    requires BnfTemplatePrefix(t, s, i, j)
    ensures MergedTemplatePrefix(t, s, i, j)
  {
    hide RuleOf;
    if Derives(t, RuleOf(TemplateParam), s, i, j) {
      PartDerives(t, TemplateParam, s, i, j);
      assert Merged(t, s, i, i);
    } else if Derives(t, RuleOf(Substitution), s, i, j) {
      PartDerives(t, Substitution, s, i, j);
      assert Merged(t, s, i, i);
    } else {
      var m: nat :| BnfPrefix(t, s, i, m) && Derives(t, RuleOf(UnqualifiedName), s, m, j);
      PrefixMerged(t, s, i, m);
      PartDerives(t, UnqualifiedName, s, m, j);
      assert Merged(t, s, i, m);
    }
  }

  /** Every nested-name of the BNF is one of the merged grammar. */
  lemma NestedNameMerged(t: Tables, s: string, i: nat, j: nat)
    requires BnfNestedName(t, s, i, j)
    ensures Derives(t, RuleOf(NestedName), s, i, j)
  {
    hide RuleOf;
    NestedNameRule();
    var from, to := i + 1, j - 1;
    var q: nat :| Produces(t, Maybe(Use(CVQualifiers)), s, from, q) && BnfComponents(t, s, q, to);
    assert BnfPrefix(t, s, q, to);
    PrefixMerged(t, s, q, to);
    FourDerives(t, Chr('N'), Maybe(Use(CVQualifiers)), Maybe(Use(Prefix)), Chr('E'), s, i, from, q, to, j);
  }

  lemma NestedNameRule()
    ensures RuleOf(NestedName) == Four(Chr('N'), Maybe(Use(CVQualifiers)), Maybe(Use(Prefix)), Chr('E'))
  {
  }

  lemma FourDerives(t: Tables, a: Item, b: Item, c: Item, d: Item, s: string, i: nat, j: nat, k: nat, l: nat, m: nat)
    requires Produces(t, a, s, i, j) && Produces(t, b, s, j, k) && Produces(t, c, s, k, l) && Produces(t, d, s, l, m)
    ensures Derives(t, Four(a, b, c, d), s, i, m)
  {
    TwoDerives(t, c, d, s, k, l, m);
    assert Derives(t, Three(b, c, d), s, j, m);
  }

  /** N and E, with nothing between them, are read as a name. */
  lemma EmptyNestedRead(t: Tables, s: string, i: nat)
    requires 0 < i < |s| && s[i - 1] == 'N' && s[i] == 'E'
    ensures AfterItem(t, Use(Name), s, i - 1) == At(i + 1)
  {
    hide AfterItem, AfterRule;
    NameWays(t, s, i - 1);
    NestedNameItems(t, s, i - 1);
    ChrRead(t, 'N', s, i - 1);
    MaybeItem(t, Use(CVQualifiers), s, i);
    NoQualifiers(t, s, i);
    PrefixItems(t, s, i);
    ManyItem(t, PrefixPart, s, i);
    PartAt(t, s, i);
    NoSourceName(t, s, i);
    ChrRead(t, 'E', s, i);
  }

  lemma NoEmptyComponents(t: Tables, s: string, i: nat)
    ensures !BnfQualified(t, s, i, i)
  {
    hide RuleOf;
    if BnfQualified(t, s, i, i) {
      var q: nat :| Produces(t, Maybe(Use(CVQualifiers)), s, i, q) && BnfComponents(t, s, q, i);
      ProducesForward(t, Maybe(Use(CVQualifiers)), s, i, q);
      RuleLeads(UnqualifiedName);
      RuleLeads(TemplateArgs);
      RuleLeads(PrefixPart);
      RuleLeads(Prefix);
      if k: nat :| BnfPrefix(t, s, q, k) && Derives(t, RuleOf(UnqualifiedName), s, k, i) {
        PrefixMerged(t, s, q, k);
        DerivesForward(t, RuleOf(UnqualifiedName), s, k, i);
        if q != k { DerivesForward(t, RuleOf(Prefix), s, q, k); }
      } else {
        var k: nat :| BnfTemplatePrefix(t, s, q, k) && Derives(t, RuleOf(TemplateArgs), s, k, i);
        TemplatePrefixMerged(t, s, q, k);
        var m: nat :| Merged(t, s, q, m) && Derives(t, RuleOf(PrefixPart), s, m, k);
        DerivesForward(t, RuleOf(TemplateArgs), s, k, i);
        DerivesForward(t, RuleOf(PrefixPart), s, m, k);
        if q != m { DerivesForward(t, RuleOf(Prefix), s, q, m); }
      }
    }
  }

  lemma EmptyNameRead(t: Tables, s: string)
    requires |s| == 4 && "_Z" <= s && s[2] == 'N' && s[3] == 'E'
    ensures End(t, MangledName, s, 0) == At(4)
  {
    hide AfterRule, AfterItem;
    LitRead(t, "_Z", s, 0);
    MangledNameItems(t, s, 0);
    EncodingWays(t, s, 2);
    TwoItems(t, Use(Name), Use(BareFunctionType), s, At(2));
    EmptyNestedRead(t, s, 3);
    NothingLeft(t, s);
    BareFunctionTypeItems(t, s, 4);
    VersionItem(t, s, 4);
    UseIsEnd(t, MangledName, s, 0);
  }

  /** The code and the merged grammar accept a nested name without components, which the BNF does not have. */
  lemma EmptyNestedName(t: Tables)
    ensures End(t, MangledName, "_ZNE", 0) == At(4) && !BnfNestedName(t, "_ZNE", 2, 4)
  {
    hide End;
    EmptyNameRead(t, "_ZNE");
    NoEmptyComponents(t, "_ZNE", 3);
  }

  // ---------- source-names ----------

  /** source-name: a positive length number and an identifier of that length, which starts with no digit. */
  ghost predicate BnfSourceName(s: string, i: nat, j: nat) {
    exists d: nat :: i < d < j <= |s| && LengthAndIdentifier(s, i, d, j)
  }

  predicate LengthAndIdentifier(s: string, i: nat, d: nat, j: nat)
    requires i <= d < j <= |s|
  {
    (forall k | i <= k < d :: Digit(s[k])) && !Digit(s[d]) && Decimal(s, i, d) == j - d
  }

  /** The code reads a source-name of the BNF exactly when it starts with a digit and its length is not zero. */
  lemma SourceNameExact(s: string, i: nat, j: nat)
    requires i < |s|
    ensures BnfSourceName(s, i, j) <==> SourceNameEnd(s, i) == At(j) && Digit(s[i]) && DigitsEnd(s, i) < j
  {
    if BnfSourceName(s, i, j) {
      var d: nat :| i < d < j <= |s| && LengthAndIdentifier(s, i, d, j);
      assert Digit(s[i]);
      DigitsEndUnique(s, i, d);
    }
    if SourceNameEnd(s, i) == At(j) && Digit(s[i]) && DigitsEnd(s, i) < j {
      assert LengthAndIdentifier(s, i, DigitsEnd(s, i), j);
    }
  }
}
