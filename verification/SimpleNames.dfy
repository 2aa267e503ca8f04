/**
 Mangled names that lib/glog/demangle.cc must accept: functions with plain or nested names
 and parameters built from qualifiers, pointers and references, builtin types and such names.
 The descriptions here do not use the grammar.
 */
module SimpleNames {
  import opened Grammar
  import opened GrammarSteps

  // ---------- the names ----------

  /** One or more source-names that start with a digit. */
  function SourceNamesEnd(s: string, i: nat): (r: Place)
    requires i <= |s|
    ensures r.At? ==> i < r.cur <= |s|
    decreases |s| - i
  {
    if i < |s| && Digit(s[i]) && SourceNameEnd(s, i).At? then
      DigitMovesOn(s, i);
      var e := SourceNameEnd(s, i).cur;
      if e < |s| && Digit(s[e]) then SourceNamesEnd(s, e) else At(e)
    else Nowhere
  }

  lemma DigitMovesOn(s: string, i: nat)
    requires i < |s| && Digit(s[i]) && SourceNameEnd(s, i).At?
    ensures i < SourceNameEnd(s, i).cur <= |s|
  {
    assert DigitsEnd(s, i) > i;
  }

  /** A source-name, or N, source-names and E. */
  function SimpleNameEnd(s: string, i: nat): (r: Place)
    requires i <= |s|
    ensures r.At? ==> i < r.cur <= |s|
  {
    if i < |s| && Digit(s[i]) && SourceNameEnd(s, i).At? then
      DigitMovesOn(s, i);
      SourceNameEnd(s, i)
    else if i < |s| && s[i] == 'N' then
      var e := SourceNamesEnd(s, i + 1);
      if e.At? && e.cur < |s| && s[e.cur] == 'E' then At(e.cur + 1) else Nowhere
    else Nowhere
  }

  /** From i on there are only types: a qualifier, P, R, C or G and a type, a builtin type, or a simple name. */
  predicate Signature(t: Tables, s: string, i: nat)
    requires i <= |s|
    decreases |s| - i
  {
    || i == |s|
    || (s[i] in "rVKPRCG" && i + 1 < |s| && Signature(t, s, i + 1))
    || (s[i] in t.builtins && Signature(t, s, i + 1))
    || (SimpleNameEnd(s, i).At? && Signature(t, s, SimpleNameEnd(s, i).cur))
  }

  /** Builtin types are lower-case letters, and r is none. */
  ghost predicate LowerBuiltins(t: Tables) {
    forall c | c in t.builtins :: IsLower(c) && c != 'r'
  }

  // ---------- where the parser reads them ----------

  lemma ChrRead(t: Tables, c: char, s: string, i: nat)
    requires i <= |s|
    ensures AfterItem(t, Chr(c), s, i) == if i < |s| && s[i] == c then At(i + 1) else Nowhere
  {
  }

  lemma NoOperatorName(t: Tables, s: string, i: nat)
    requires i <= |s| && (i < |s| ==> !IsLower(s[i]))
    ensures AfterItem(t, Use(OperatorName), s, i) == Nowhere
  {
    OperatorNameWays(t, s, i);
    TwoItems(t, Lit("cv"), Use(Type), s, At(i));
    ThreeItems(t, Chr('v'), Class("0123456789"), Use(SourceName), s, At(i));
    hide End, ManyEnd, AfterRule;
  }

  lemma NoCtorDtorName(t: Tables, s: string, i: nat)
    requires i <= |s| && (i < |s| ==> s[i] != 'C' && s[i] != 'D')
    ensures AfterItem(t, Use(CtorDtorName), s, i) == Nowhere
  {
    hide AfterItem, AfterRule;
    CtorDtorNameWays(t, s, i);
    TwoItems(t, Chr('C'), Class("123"), s, At(i));
    TwoItems(t, Chr('D'), Class("012"), s, At(i));
    ChrRead(t, 'C', s, i);
    ChrRead(t, 'D', s, i);
  }

  /** A digit or a capital letter but C, D, L and S starts nothing of an unscoped name but a source-name. */
  lemma UnscopedAt(t: Tables, s: string, i: nat)
    requires i < |s| && !IsLower(s[i]) && s[i] !in "CDLS"
    ensures AfterItem(t, Use(UnscopedName), s, i) == AfterItem(t, Use(SourceName), s, i)
  {
    hide AfterItem, AfterRule;
    UnscopedNameWays(t, s, i);
    TwoItems(t, Lit("St"), Use(UnqualifiedName), s, At(i));
    assert AfterItem(t, Lit("St"), s, i) == Nowhere by { LitFails(t, "St", s, i); }
    UnqualifiedNameWays(t, s, i);
    NoOperatorName(t, s, i);
    NoCtorDtorName(t, s, i);
    LocalSourceNameItems(t, s, i);
    ChrRead(t, 'L', s, i);
  }

  lemma LitRead(t: Tables, text: string, s: string, i: nat)
    requires |text| == 2 && i <= |s| && text <= s[i..]
    ensures AfterItem(t, Lit(text), s, i) == At(i + 2)
  {
  }

  lemma UseIsEnd(t: Tables, p: Symbol, s: string, i: nat)
    requires i <= |s|
    ensures AfterItem(t, Use(p), s, i) == End(t, p, s, i)
  {
    hide End;
  }

  lemma LitFails(t: Tables, text: string, s: string, i: nat)
    requires |text| == 2 && i <= |s| && (i < |s| ==> s[i] != text[0])
    ensures AfterItem(t, Lit(text), s, i) == Nowhere
  {
  }

  lemma NoTemplateParam(t: Tables, s: string, i: nat)
    requires i <= |s| && (i < |s| ==> s[i] != 'T')
    ensures AfterItem(t, Use(TemplateParam), s, i) == Nowhere
  {
    TemplateParamWays(t, s, i);
    ThreeItems(t, Chr('T'), Number, Chr('_'), s, At(i));
    hide End, ManyEnd, AfterRule;
  }

  lemma NoSubstitution(t: Tables, s: string, i: nat)
    requires i <= |s| && (i < |s| ==> s[i] != 'S')
    ensures AfterItem(t, Use(Substitution), s, i) == Nowhere
  {
    SubstitutionWays(t, s, i);
    ThreeItems(t, Chr('S'), SeqId, Chr('_'), s, At(i));
    TwoItems(t, Chr('S'), SubstitutionLetter, s, At(i));
    hide End, ManyEnd, AfterRule;
  }

  lemma NoTemplateArgs(t: Tables, s: string, i: nat)
    requires i <= |s| && (i < |s| ==> s[i] != 'I')
    ensures AfterItem(t, Use(TemplateArgs), s, i) == Nowhere
  {
    TemplateArgsItems(t, s, i);
    hide End, ManyEnd;
  }

  lemma NoLocalName(t: Tables, s: string, i: nat)
    requires i <= |s| && (i < |s| ==> s[i] != 'Z')
    ensures AfterItem(t, Use(LocalName), s, i) == Nowhere
  {
    LocalNameWays(t, s, i);
    FiveItems(t, Chr('Z'), Use(Encoding), Chr('E'), Use(Name), Maybe(Use(Discriminator)), s, At(i));
    FourItems(t, Chr('Z'), Use(Encoding), Lit("Es"), Maybe(Use(Discriminator)), s, At(i));
    hide End, ManyEnd, AfterRule;
  }

  lemma PartAt(t: Tables, s: string, i: nat)
    requires i < |s| && (Digit(s[i]) || s[i] == 'E')
    ensures AfterItem(t, Use(PrefixPart), s, i) == AfterItem(t, Use(SourceName), s, i)
  {
    hide AfterItem;
    PrefixPartWays(t, s, i);
    NoTemplateParam(t, s, i);
    NoSubstitution(t, s, i);
    UnscopedAt(t, s, i);
  }

  lemma NoSourceName(t: Tables, s: string, i: nat)
    requires i < |s| && !Digit(s[i]) && s[i] != 'n'
    ensures AfterItem(t, Use(SourceName), s, i) == Nowhere
  {
    hide AfterItem;
    SourceNameItems(t, s, i);
  }

  lemma NothingAtEnd(t: Tables, q: Symbol, s: string)
    ensures AfterItem(t, Use(q), s, |s|) == Nowhere && AfterItem(t, Maybe(Many(q)), s, |s|) == At(|s|)
  {
    MaybeItem(t, Many(q), s, |s|);
  }

  /** The prefix of a nested name is read up to its E, or to the end. */
  lemma {:induction false} PartsRead(t: Tables, s: string, i: nat)
    requires i <= |s| && SourceNamesEnd(s, i).At?
    requires var e := SourceNamesEnd(s, i).cur; e < |s| ==> s[e] == 'E'
    ensures AfterItem(t, Maybe(Many(PrefixPart)), s, i) == SourceNamesEnd(s, i)
    decreases |s| - i
  {
    hide AfterItem;
    var e := SourceNameEnd(s, i).cur;
    DigitMovesOn(s, i);
    PartAt(t, s, i);
    SourceNameItems(t, s, i);
    ManyItem(t, PrefixPart, s, i);
    if e == |s| {
      NothingAtEnd(t, PrefixPart, s);
    } else if Digit(s[e]) {
      PartsRead(t, s, e);
    } else {
      ManyItem(t, PrefixPart, s, e);
      PartAt(t, s, e);
      NoSourceName(t, s, e);
    }
  }

  lemma PlainNameRead(t: Tables, s: string, i: nat)
    requires i < |s| && Digit(s[i]) && SourceNameEnd(s, i).At?
    requires var e := SourceNameEnd(s, i).cur; 0 <= e < |s| ==> s[e] != 'I'
    ensures AfterItem(t, Use(Name), s, i) == SourceNameEnd(s, i)
  {
    hide AfterItem, AfterRule;
    DigitMovesOn(s, i);
    NameWays(t, s, i);
    NestedNameItems(t, s, i);
    ChrRead(t, 'N', s, i);
    NoLocalName(t, s, i);
    TwoItems(t, Use(UnscopedTemplateName), Use(TemplateArgs), s, At(i));
    UnscopedTemplateNameWays(t, s, i);
    UnscopedAt(t, s, i);
    SourceNameItems(t, s, i);
    NoTemplateArgs(t, s, SourceNameEnd(s, i).cur);
  }

  lemma NestedNameRead(t: Tables, s: string, i: nat)
    requires i < |s| && s[i] == 'N' && SimpleNameEnd(s, i).At?
    ensures AfterItem(t, Use(Name), s, i) == SimpleNameEnd(s, i)
  {
    hide AfterItem, AfterRule;
    var e := SourceNamesEnd(s, i + 1);
    NameWays(t, s, i);
    NestedNameItems(t, s, i);
    ChrRead(t, 'N', s, i);
    MaybeItem(t, Use(CVQualifiers), s, i + 1);
    NoQualifiers(t, s, i + 1);
    PrefixItems(t, s, i + 1);
    PartsRead(t, s, i + 1);
    NoTemplateArgs(t, s, e.cur);
    ChrRead(t, 'E', s, e.cur);
  }

  lemma NoQualifiers(t: Tables, s: string, i: nat)
    requires i < |s| && s[i] !in "rVK"
    ensures AfterItem(t, Use(CVQualifiers), s, i) == Nowhere
  {
    CVQualifiersItems(t, s, i);
    hide End, ManyEnd;
  }

  /** A simple name is read as a whole when no template arguments follow. */
  lemma SimpleNameRead(t: Tables, s: string, i: nat)
    requires i <= |s| && SimpleNameEnd(s, i).At?
    requires var e := SimpleNameEnd(s, i).cur; e < |s| ==> s[e] != 'I'
    ensures AfterItem(t, Use(Name), s, i) == SimpleNameEnd(s, i)
  {
    if Digit(s[i]) {
      PlainNameRead(t, s, i);
    } else {
      NestedNameRead(t, s, i);
    }
  }

  lemma ClassRead(t: Tables, chars: string, s: string, i: nat)
    requires i <= |s|
    ensures AfterItem(t, Class(chars), s, i) == if i < |s| && s[i] in chars then At(i + 1) else Nowhere
  {
  }

  lemma QualifierNext(t: Tables, s: string, i: nat)
    requires i < |s| && s[i] in "rVK" && Signature(t, s, i) && LowerBuiltins(t)
    ensures i + 1 < |s| && Signature(t, s, i + 1)
  {
  }

  lemma SignatureStart(t: Tables, s: string, i: nat)
    requires i < |s| && Signature(t, s, i) && LowerBuiltins(t)
    ensures s[i] != 'I'
  {
  }

  /** Where the qualifiers at i end there is a type of the signature, too. */
  lemma QualifiersRead(t: Tables, s: string, i: nat) returns (e: nat)
    requires i < |s| && s[i] in "rVK" && Signature(t, s, i) && LowerBuiltins(t)
    ensures i < e < |s| && Signature(t, s, e) && AfterItem(t, Use(CVQualifiers), s, i) == At(e)
    ensures forall k | i <= k < e :: s[k] in "rVK"
  {
    hide End, ManyEnd, Signature;
    CVQualifiersItems(t, s, i);
    var r := Skip(s, i, 'r');
    if i < r { QualifierNext(t, s, i); }
    var v := Skip(s, r, 'V');
    if r < v { QualifierNext(t, s, r); }
    e := Skip(s, v, 'K');
    if v < e { QualifierNext(t, s, v); }
  }

  lemma NoPrefixedType(t: Tables, s: string, i: nat)
    requires i < |s| && s[i] !in "rVKPRCGU"
    ensures AfterItem(t, Use(Type), s, i) == AfterRule(t, PlainTypes(), s, At(i))
  {
    hide AfterItem, AfterRule;
    TypeWays(t, s, i);
    TwoItems(t, Use(CVQualifiers), Use(Type), s, At(i));
    NoQualifiers(t, s, i);
    TwoItems(t, Class("PRCG"), Use(Type), s, At(i));
    ClassRead(t, "PRCG", s, i);
    ThreeItems(t, Chr('U'), Use(SourceName), Use(Type), s, At(i));
    ChrRead(t, 'U', s, i);
  }

  lemma BuiltinLetterRead(t: Tables, s: string, i: nat)
    requires i <= |s|
    ensures AfterItem(t, BuiltinLetter, s, i) == if i < |s| && s[i] in t.builtins then At(i + 1) else Nowhere
  {
  }

  lemma BuiltinRead(t: Tables, s: string, i: nat)
    requires i < |s| && s[i] in t.builtins && LowerBuiltins(t)
    ensures AfterItem(t, Use(Type), s, i) == At(i + 1)
  {
    hide AfterItem, AfterRule;
    NoPrefixedType(t, s, i);
    PlainTypesWays(t, s, i);
    BuiltinTypeWays(t, s, i);
    BuiltinLetterRead(t, s, i);
  }

  lemma NameTypeRead(t: Tables, s: string, i: nat)
    requires i < |s| && SimpleNameEnd(s, i).At? && LowerBuiltins(t)
    requires var e := SimpleNameEnd(s, i).cur; e < |s| ==> s[e] != 'I'
    ensures AfterItem(t, Use(Type), s, i) == SimpleNameEnd(s, i)
  {
    hide AfterItem, AfterRule;
    NoPrefixedType(t, s, i);
    PlainTypesWays(t, s, i);
    BuiltinTypeWays(t, s, i);
    TwoItems(t, Chr('u'), Use(SourceName), s, At(i));
    ChrRead(t, 'u', s, i);
    BuiltinLetterRead(t, s, i);
    FunctionTypeItems(t, s, i);
    ChrRead(t, 'F', s, i);
    ClassEnumTypeItems(t, s, i);
    SimpleNameRead(t, s, i);
  }

  /** A signature is read type by type. */
  lemma {:induction false} TypeRead(t: Tables, s: string, i: nat) returns (e: nat)
    requires i < |s| && Signature(t, s, i) && LowerBuiltins(t)
    ensures i < e <= |s| && Signature(t, s, e) && AfterItem(t, Use(Type), s, i) == At(e)
    decreases |s| - i
  {
    hide AfterItem, AfterRule;
    if s[i] in "rVK" {
      var q := QualifiersRead(t, s, i);
      e := TypeRead(t, s, q);
      TypeWays(t, s, i);
      TwoItems(t, Use(CVQualifiers), Use(Type), s, At(i));
    } else if s[i] in "PRCG" {
      e := TypeRead(t, s, i + 1);
      TypeWays(t, s, i);
      TwoItems(t, Use(CVQualifiers), Use(Type), s, At(i));
      NoQualifiers(t, s, i);
      TwoItems(t, Class("PRCG"), Use(Type), s, At(i));
      ClassRead(t, "PRCG", s, i);
    } else if s[i] in t.builtins {
      BuiltinRead(t, s, i);
      e := i + 1;
    } else {
      e := SimpleNameEnd(s, i).cur;
      NameTypeRead(t, s, i);
    }
  }

  lemma {:induction false} SignatureRead(t: Tables, s: string, i: nat)
    requires i < |s| && Signature(t, s, i) && LowerBuiltins(t)
    ensures AfterItem(t, Many(Type), s, i) == At(|s|)
    decreases |s| - i
  {
    hide AfterItem;
    var e := TypeRead(t, s, i);
    ManyItem(t, Type, s, i);
    MaybeItem(t, Many(Type), s, e);
    if e < |s| {
      SignatureRead(t, s, e);
    } else {
      NothingLeft(t, s);
    }
  }

  lemma NothingLeft(t: Tables, s: string)
    ensures AfterItem(t, Many(Type), s, |s|) == Nowhere
  {
  }

  /** Every function with a simple name and a signature is accepted, and nothing of it is left. */
  lemma SimpleNamesAccepted(t: Tables, s: string)
    requires "_Z" <= s && SimpleNameEnd(s, 2).At? && LowerBuiltins(t)
    requires Signature(t, s, SimpleNameEnd(s, 2).cur)
    ensures End(t, MangledName, s, 0) == At(|s|)
  {
    hide AfterItem, AfterRule, Signature, SimpleNameEnd;
    LitRead(t, "_Z", s, 0);
    UseIsEnd(t, MangledName, s, 0);
    var e := SimpleNameEnd(s, 2).cur;
    MangledNameItems(t, s, 0);
    EncodingWays(t, s, 2);
    TwoItems(t, Use(Name), Use(BareFunctionType), s, At(2));
    if e < |s| { SignatureStart(t, s, e); }
    SimpleNameRead(t, s, 2);
    BareFunctionTypeItems(t, s, e);
    if e < |s| {
      SignatureRead(t, s, e);
    } else {
      NothingLeft(t, s);
    }
    VersionItem(t, s, |s|);
  }

  // ---------- a name that is refused ----------

  lemma NoSpecialName(t: Tables, s: string, i: nat)
    requires i <= |s| && (i < |s| ==> s[i] != 'T' && s[i] != 'G')
    ensures AfterItem(t, Use(SpecialName), s, i) == Nowhere
  {
    hide AfterItem, AfterRule;
    SpecialNameWays(t, s, i);
    ThreeItems(t, Chr('T'), Class("VTIS"), Use(Type), s, At(i));
    FourItems(t, Lit("Tc"), Use(CallOffset), Use(CallOffset), Use(Encoding), s, At(i));
    TwoItems(t, Lit("GV"), Use(Name), s, At(i));
    ThreeItems(t, Chr('T'), Use(CallOffset), Use(Encoding), s, At(i));
    ChrRead(t, 'T', s, i);
    LitFails(t, "Tc", s, i);
    LitFails(t, "GV", s, i);
    NoGnuSpecialName(t, s, i);
  }

  lemma NoGnuSpecialName(t: Tables, s: string, i: nat)
    requires i <= |s| && (i < |s| ==> s[i] != 'T' && s[i] != 'G')
    ensures AfterRule(t, GnuSpecialNames(), s, At(i)) == Nowhere
  {
    hide AfterItem, AfterRule;
    GnuSpecialNamesWays(t, s, i);
    FiveItems(t, Lit("TC"), Use(Type), Number, Chr('_'), Use(Type), s, At(i));
    ThreeItems(t, Chr('T'), Class("FJ"), Use(Type), s, At(i));
    TwoItems(t, Lit("GR"), Use(Name), s, At(i));
    TwoItems(t, Lit("GA"), Use(Encoding), s, At(i));
    FourItems(t, Chr('T'), Class("hv"), Use(CallOffset), Use(Encoding), s, At(i));
    ChrRead(t, 'T', s, i);
    LitFails(t, "TC", s, i);
    LitFails(t, "GR", s, i);
    LitFails(t, "GA", s, i);
  }

  lemma UnclosedNestedName(t: Tables, s: string, i: nat)
    requires i < |s| && s[i] == 'N' && SourceNamesEnd(s, i + 1) == At(|s|)
    ensures AfterItem(t, Use(Name), s, i) == Nowhere
  {
    hide AfterItem, AfterRule;
    NameWays(t, s, i);
    NestedNameItems(t, s, i);
    ChrRead(t, 'N', s, i);
    MaybeItem(t, Use(CVQualifiers), s, i + 1);
    NoQualifiers(t, s, i + 1);
    PrefixItems(t, s, i + 1);
    PartsRead(t, s, i + 1);
    NothingAtEnd(t, TemplateArgs, s);
    ChrRead(t, 'E', s, |s|);
    NoLocalName(t, s, i);
    TwoItems(t, Use(UnscopedTemplateName), Use(TemplateArgs), s, At(i));
    UnscopedTemplateNameWays(t, s, i);
    UnscopedAt(t, s, i);
    NoSourceName(t, s, i);
    NoSubstitution(t, s, i);
  }

  /** A nested name without its E is refused. */
  lemma UnclosedNameRefused(t: Tables, s: string)
    requires "_ZN" <= s && SourceNamesEnd(s, 3) == At(|s|)
    ensures End(t, MangledName, s, 0) == Nowhere
  {
    hide AfterItem, AfterRule;
    LitRead(t, "_Z", s, 0);
    UseIsEnd(t, MangledName, s, 0);
    MangledNameItems(t, s, 0);
    EncodingWays(t, s, 2);
    TwoItems(t, Use(Name), Use(BareFunctionType), s, At(2));
    UnclosedNestedName(t, s, 2);
    NoSpecialName(t, s, 2);
  }

  // ---------- examples ----------

  lemma NumeralAt(s: string, i: nat)
    requires i + 1 < |s| && Digit(s[i]) && !Digit(s[i + 1])
    ensures DigitsEnd(s, i) == i + 1 && Decimal(s, i, i + 1) == DigitValue(s[i])
  {
    assert DigitsEnd(s, i + 1) == i + 1;
    assert Decimal(s, i, i) == 0;
  }

  lemma NestedExampleName(s: string)
    requires s == "_ZN3foo3barEv"
    ensures SimpleNameEnd(s, 2) == At(12)
  {
    NumeralAt(s, 3);
    NumeralAt(s, 7);
    PositiveLength(s, 3);
    PositiveLength(s, 7);
    assert SourceNamesEnd(s, 7) == At(11) && SourceNamesEnd(s, 3) == At(11);
  }

  /** foo::bar() */
  lemma NestedExample(t: Tables)
    requires LowerBuiltins(t) && 'v' in t.builtins
    ensures End(t, MangledName, "_ZN3foo3barEv", 0) == At(13)
  {
    hide End, LowerBuiltins, SimpleNameEnd;
    var s := "_ZN3foo3barEv";
    NestedExampleName(s);
    assert Signature(t, s, 13) && Signature(t, s, 12);
    SimpleNamesAccepted(t, s);
  }

  /** f(char*) */
  lemma PointerExample(t: Tables)
    requires LowerBuiltins(t) && 'c' in t.builtins
    ensures End(t, MangledName, "_Z1fPc", 0) == At(6)
  {
    hide End, LowerBuiltins;
    var s := "_Z1fPc";
    NumeralAt(s, 2);
    PositiveLength(s, 2);
    assert SimpleNameEnd(s, 2) == At(4);
    assert Signature(t, s, 6) && Signature(t, s, 5) && Signature(t, s, 4);
    SimpleNamesAccepted(t, s);
  }
}
