/**
 The productions of lib/glog/demangle.cc unrolled: where each symbol ends, in terms of what
 its rule is made of.
 */
module GrammarSteps {
  import opened Grammar

  /** A rule unrolled. */
  lemma OneItem(t: Tables, a: Item, s: string, place: Place)
    requires place.At? ==> 0 <= place.cur <= |s|
    ensures AfterRule(t, One(a), s, place) == Next(t, a, s, place)
  {
    hide AfterItem, Next;
  }

  lemma MaybeItem(t: Tables, item: Item, s: string, i: nat)
    requires i <= |s|
    ensures AfterItem(t, Maybe(item), s, i) == Either(AfterItem(t, item, s, i), At(i))
  {
  }

  /** One or more: one, and then as many more as there are. */
  lemma ManyItem(t: Tables, q: Symbol, s: string, i: nat)
    requires i <= |s|
    ensures AfterItem(t, Many(q), s, i) == Next(t, Maybe(Many(q)), s, AfterItem(t, Use(q), s, i))
    ensures AfterItem(t, Maybe(Many(q)), s, i) ==
              if AfterItem(t, Use(q), s, i).At? then Next(t, Maybe(Many(q)), s, AfterItem(t, Use(q), s, i)) else At(i)
  {
    hide End;
    var e := End(t, q, s, i);
    MaybeItem(t, Many(q), s, i);
    if e.At? {
      MaybeItem(t, Many(q), s, e.cur);
    }
  }

  lemma TwoItems(t: Tables, a: Item, b: Item, s: string, place: Place)
    requires place.At? ==> 0 <= place.cur <= |s|
    ensures AfterRule(t, Two(a, b), s, place) == Next(t, b, s, Next(t, a, s, place))
  {
    hide AfterItem, Next;
    assert AfterRule(t, One(b), s, Next(t, a, s, place)) == Next(t, b, s, Next(t, a, s, place));
  }

  lemma ThreeItems(t: Tables, a: Item, b: Item, c: Item, s: string, place: Place)
    requires place.At? ==> 0 <= place.cur <= |s|
    ensures AfterRule(t, Three(a, b, c), s, place) == Next(t, c, s, Next(t, b, s, Next(t, a, s, place)))
  {
    hide AfterItem, Next;
    TwoItems(t, b, c, s, Next(t, a, s, place));
  }

  lemma FourItems(t: Tables, a: Item, b: Item, c: Item, d: Item, s: string, place: Place)
    requires place.At? ==> 0 <= place.cur <= |s|
    ensures AfterRule(t, Four(a, b, c, d), s, place) == Next(t, d, s, Next(t, c, s, Next(t, b, s, Next(t, a, s, place))))
  {
    hide AfterItem, Next;
    ThreeItems(t, b, c, d, s, Next(t, a, s, place));
  }

  lemma FiveItems(t: Tables, a: Item, b: Item, c: Item, d: Item, e: Item, s: string, place: Place)
    requires place.At? ==> 0 <= place.cur <= |s|
    ensures AfterRule(t, Five(a, b, c, d, e), s, place) ==
              Next(t, e, s, Next(t, d, s, Next(t, c, s, Next(t, b, s, Next(t, a, s, place)))))
  {
    hide AfterItem, Next;
    FourItems(t, b, c, d, e, s, Next(t, a, s, place));
  }

  lemma TwoWays(t: Tables, a: Rule, b: Rule, s: string, place: Place)
    requires place.At? ==> 0 <= place.cur <= |s|
    ensures AfterRule(t, Or(a, b), s, place) ==
              Either(AfterRule(t, a, s, place), AfterRule(t, b, s, place))
  {
    hide AfterItem, Next;
  }

  lemma ThreeWays(t: Tables, a: Rule, b: Rule, c: Rule, s: string, place: Place)
    requires place.At? ==> 0 <= place.cur <= |s|
    ensures AfterRule(t, Or(a, Or(b, c)), s, place) ==
              Either(AfterRule(t, a, s, place), Either(AfterRule(t, b, s, place), AfterRule(t, c, s, place)))
  {
    hide AfterItem, Next;
    TwoWays(t, b, c, s, place);
  }

  lemma FourWays(t: Tables, a: Rule, b: Rule, c: Rule, d: Rule, s: string, place: Place)
    requires place.At? ==> 0 <= place.cur <= |s|
    ensures AfterRule(t, Or(a, Or(b, Or(c, d))), s, place) ==
              Either(AfterRule(t, a, s, place),
                Either(AfterRule(t, b, s, place), Either(AfterRule(t, c, s, place), AfterRule(t, d, s, place))))
  {
    hide AfterItem, Next;
    ThreeWays(t, b, c, d, s, place);
  }

  // ---------- the sequences, symbol by symbol ----------

  lemma MangledNameItems(t: Tables, s: string, i: nat)
    requires i <= |s|
    ensures AfterItem(t, Use(MangledName), s, i) ==
              Next(t, Maybe(Version), s, Next(t, Use(Encoding), s, AfterItem(t, Lit("_Z"), s, i)))
  {
    hide AfterItem;
    EndIsRule(t, MangledName, s, i);
    ThreeItems(t, Lit("_Z"), Use(Encoding), Maybe(Version), s, At(i));
  }

  lemma NumberItem(t: Tables, s: string, i: nat)
    requires i <= |s|
    ensures AfterItem(t, Number, s, i) == if ReadNumber(s, i).Signed? then At(ReadNumber(s, i).end) else Nowhere
  {
    hide End, ManyEnd, ReadNumber;
  }

  /** A version suffix is everything from an '@' on. */
  lemma VersionItem(t: Tables, s: string, i: nat)
    requires i <= |s|
    ensures AfterItem(t, Maybe(Version), s, i) == At(if i < |s| && s[i] == '@' then |s| else i)
  {
    hide End, ManyEnd;
  }

  lemma NestedNameItems(t: Tables, s: string, i: nat)
    requires i <= |s|
    ensures AfterItem(t, Use(NestedName), s, i) ==
              Next(t, Chr('E'), s, Next(t, Maybe(Use(Prefix)), s,
                   Next(t, Maybe(Use(CVQualifiers)), s, AfterItem(t, Chr('N'), s, i))))
  {
    hide AfterItem;
    EndIsRule(t, NestedName, s, i);
    FourItems(t, Chr('N'), Maybe(Use(CVQualifiers)), Maybe(Use(Prefix)), Chr('E'), s, At(i));
  }

  /** A source-name moves on. */
  lemma SourceNameItems(t: Tables, s: string, i: nat)
    requires i <= |s|
    ensures var e := SourceNameEnd(s, i); AfterItem(t, Use(SourceName), s, i) == if e.At? && i < e.cur then e else Nowhere
  {
    EndIsRule(t, SourceName, s, i);
    OneItem(t, LengthAndText, s, At(i));
    hide End, ManyEnd, AfterRule, SourceNameEnd;
  }

  lemma LocalSourceNameItems(t: Tables, s: string, i: nat)
    requires i <= |s|
    ensures AfterItem(t, Use(LocalSourceName), s, i) ==
              Next(t, Maybe(Use(Discriminator)), s, Next(t, Use(SourceName), s, AfterItem(t, Chr('L'), s, i)))
  {
    hide AfterItem;
    EndIsRule(t, LocalSourceName, s, i);
    ThreeItems(t, Chr('L'), Use(SourceName), Maybe(Use(Discriminator)), s, At(i));
  }

  lemma DiscriminatorItems(t: Tables, s: string, i: nat)
    requires i <= |s|
    ensures AfterItem(t, Use(Discriminator), s, i) == Next(t, Number, s, AfterItem(t, Chr('_'), s, i))
  {
    hide AfterItem;
    EndIsRule(t, Discriminator, s, i);
    TwoItems(t, Chr('_'), Number, s, At(i));
  }

  lemma VOffsetItems(t: Tables, s: string, i: nat)
    requires i <= |s|
    ensures AfterItem(t, Use(VOffset), s, i) == Next(t, Number, s, Next(t, Chr('_'), s, AfterItem(t, Number, s, i)))
  {
    hide AfterItem;
    EndIsRule(t, VOffset, s, i);
    ThreeItems(t, Number, Chr('_'), Number, s, At(i));
  }

  lemma CVQualifiersItems(t: Tables, s: string, i: nat)
    requires i <= |s|
    ensures AfterItem(t, Use(CVQualifiers), s, i) == AfterItem(t, Qualifiers, s, i)
  {
    hide AfterItem;
    EndIsRule(t, CVQualifiers, s, i);
    OneItem(t, Qualifiers, s, At(i));
  }

  lemma FunctionTypeItems(t: Tables, s: string, i: nat)
    requires i <= |s|
    ensures AfterItem(t, Use(FunctionType), s, i) ==
              Next(t, Chr('E'), s, Next(t, Use(BareFunctionType), s,
                   Next(t, Maybe(Chr('Y')), s, AfterItem(t, Chr('F'), s, i))))
  {
    hide AfterItem;
    EndIsRule(t, FunctionType, s, i);
    FourItems(t, Chr('F'), Maybe(Chr('Y')), Use(BareFunctionType), Chr('E'), s, At(i));
  }

  lemma BareFunctionTypeItems(t: Tables, s: string, i: nat)
    requires i <= |s|
    ensures AfterItem(t, Use(BareFunctionType), s, i) == AfterItem(t, Many(Type), s, i)
  {
    hide AfterItem;
    EndIsRule(t, BareFunctionType, s, i);
    OneItem(t, Many(Type), s, At(i));
  }

  lemma ClassEnumTypeItems(t: Tables, s: string, i: nat)
    requires i <= |s|
    ensures AfterItem(t, Use(ClassEnumType), s, i) == AfterItem(t, Use(Name), s, i)
  {
    hide AfterItem;
    EndIsRule(t, ClassEnumType, s, i);
    OneItem(t, Use(Name), s, At(i));
  }

  lemma PointerToMemberTypeItems(t: Tables, s: string, i: nat)
    requires i <= |s|
    ensures AfterItem(t, Use(PointerToMemberType), s, i) ==
              Next(t, Use(Type), s, Next(t, Use(Type), s, AfterItem(t, Chr('M'), s, i)))
  {
    hide AfterItem;
    EndIsRule(t, PointerToMemberType, s, i);
    ThreeItems(t, Chr('M'), Use(Type), Use(Type), s, At(i));
  }

  lemma TemplateArgsItems(t: Tables, s: string, i: nat)
    requires i <= |s|
    ensures AfterItem(t, Use(TemplateArgs), s, i) ==
              Next(t, Chr('E'), s, Next(t, Many(TemplateArg), s, AfterItem(t, Chr('I'), s, i)))
  {
    hide AfterItem;
    EndIsRule(t, TemplateArgs, s, i);
    ThreeItems(t, Chr('I'), Many(TemplateArg), Chr('E'), s, At(i));
  }

  /** The merged prefix: parts, and if there are any, template-args and another prefix. */
  lemma PrefixItems(t: Tables, s: string, i: nat)
    requires i <= |s|
    ensures var parts := AfterItem(t, Maybe(Many(PrefixPart)), s, i);
            && parts.At?
            && AfterItem(t, Maybe(Use(Prefix)), s, i) ==
                 (if parts == At(i) then parts
                  else Either(Next(t, Maybe(Use(Prefix)), s, AfterItem(t, Use(TemplateArgs), s, parts.cur)), parts))
  {
    MaybeItem(t, Many(PrefixPart), s, i);
    MaybeItem(t, Use(Prefix), s, i);
    EndIsRule(t, Prefix, s, i);
    TwoItems(t, Many(PrefixPart), Maybe(Use(PrefixTail)), s, At(i));
    var parts := AfterItem(t, Many(PrefixPart), s, i);
    if parts.At? {
      MaybeItem(t, Use(PrefixTail), s, parts.cur);
      EndIsRule(t, PrefixTail, s, parts.cur);
      TwoItems(t, Use(TemplateArgs), Maybe(Use(Prefix)), s, parts);
    }
    hide ItemEnd, AfterRule, End, ManyEnd;
  }

  // ---------- the alternatives, symbol by symbol ----------

  lemma EncodingWays(t: Tables, s: string, i: nat)
    requires i <= |s|
    ensures AfterItem(t, Use(Encoding), s, i) ==
              Either(AfterRule(t, Two(Use(Name), Use(BareFunctionType)), s, At(i)),
              Either(AfterItem(t, Use(Name), s, i),
              AfterItem(t, Use(SpecialName), s, i)))
  {
    hide AfterItem;
    EndIsRule(t, Encoding, s, i);
    ThreeWays(t, Two(Use(Name), Use(BareFunctionType)), One(Use(Name)), One(Use(SpecialName)), s, At(i));
    OneItem(t, Use(Name), s, At(i));
    OneItem(t, Use(SpecialName), s, At(i));
  }

  lemma NameWays(t: Tables, s: string, i: nat)
    requires i <= |s|
    ensures AfterItem(t, Use(Name), s, i) ==
              Either(AfterItem(t, Use(NestedName), s, i),
              Either(AfterItem(t, Use(LocalName), s, i),
              Either(AfterRule(t, Two(Use(UnscopedTemplateName), Use(TemplateArgs)), s, At(i)),
              AfterItem(t, Use(UnscopedName), s, i))))
  {
    hide AfterItem;
    EndIsRule(t, Name, s, i);
    FourWays(t, One(Use(NestedName)), One(Use(LocalName)), Two(Use(UnscopedTemplateName), Use(TemplateArgs)),
      One(Use(UnscopedName)), s, At(i));
    OneItem(t, Use(NestedName), s, At(i));
    OneItem(t, Use(LocalName), s, At(i));
    OneItem(t, Use(UnscopedName), s, At(i));
  }

  lemma UnscopedNameWays(t: Tables, s: string, i: nat)
    requires i <= |s|
    ensures AfterItem(t, Use(UnscopedName), s, i) ==
              Either(AfterItem(t, Use(UnqualifiedName), s, i), AfterRule(t, Two(Lit("St"), Use(UnqualifiedName)), s, At(i)))
  {
    hide AfterItem;
    EndIsRule(t, UnscopedName, s, i);
    TwoWays(t, One(Use(UnqualifiedName)), Two(Lit("St"), Use(UnqualifiedName)), s, At(i));
    OneItem(t, Use(UnqualifiedName), s, At(i));
  }

  lemma UnscopedTemplateNameWays(t: Tables, s: string, i: nat)
    requires i <= |s|
    ensures AfterItem(t, Use(UnscopedTemplateName), s, i) ==
              Either(AfterItem(t, Use(UnscopedName), s, i), AfterItem(t, Use(Substitution), s, i))
  {
    hide AfterItem;
    EndIsRule(t, UnscopedTemplateName, s, i);
    TwoWays(t, One(Use(UnscopedName)), One(Use(Substitution)), s, At(i));
    OneItem(t, Use(UnscopedName), s, At(i));
    OneItem(t, Use(Substitution), s, At(i));
  }

  lemma PrefixPartWays(t: Tables, s: string, i: nat)
    requires i <= |s|
    ensures AfterItem(t, Use(PrefixPart), s, i) ==
              Either(AfterItem(t, Use(TemplateParam), s, i),
              Either(AfterItem(t, Use(Substitution), s, i),
              AfterItem(t, Use(UnscopedName), s, i)))
  {
    hide AfterItem;
    EndIsRule(t, PrefixPart, s, i);
    ThreeWays(t, One(Use(TemplateParam)), One(Use(Substitution)), One(Use(UnscopedName)), s, At(i));
    OneItem(t, Use(TemplateParam), s, At(i));
    OneItem(t, Use(Substitution), s, At(i));
    OneItem(t, Use(UnscopedName), s, At(i));
  }

  lemma UnqualifiedNameWays(t: Tables, s: string, i: nat)
    requires i <= |s|
    ensures AfterItem(t, Use(UnqualifiedName), s, i) ==
              Either(AfterItem(t, Use(OperatorName), s, i),
              Either(AfterItem(t, Use(CtorDtorName), s, i),
              Either(AfterItem(t, Use(SourceName), s, i),
              AfterItem(t, Use(LocalSourceName), s, i))))
  {
    hide AfterItem;
    EndIsRule(t, UnqualifiedName, s, i);
    FourWays(t, One(Use(OperatorName)), One(Use(CtorDtorName)), One(Use(SourceName)), One(Use(LocalSourceName)), s, At(i));
    OneItem(t, Use(OperatorName), s, At(i));
    OneItem(t, Use(CtorDtorName), s, At(i));
    OneItem(t, Use(SourceName), s, At(i));
    OneItem(t, Use(LocalSourceName), s, At(i));
  }

  lemma OperatorNameWays(t: Tables, s: string, i: nat)
    requires i <= |s|
    ensures AfterItem(t, Use(OperatorName), s, i) ==
              Either(AfterRule(t, Two(Lit("cv"), Use(Type)), s, At(i)),
              Either(AfterRule(t, Three(Chr('v'), Class("0123456789"), Use(SourceName)), s, At(i)),
              AfterItem(t, OperatorLetters, s, i)))
  {
    hide AfterItem;
    EndIsRule(t, OperatorName, s, i);
    ThreeWays(t, Two(Lit("cv"), Use(Type)), Three(Chr('v'), Class("0123456789"), Use(SourceName)), One(OperatorLetters),
      s, At(i));
    OneItem(t, OperatorLetters, s, At(i));
  }

  lemma CtorDtorNameWays(t: Tables, s: string, i: nat)
    requires i <= |s|
    ensures AfterItem(t, Use(CtorDtorName), s, i) ==
              Either(AfterRule(t, Two(Chr('C'), Class("123")), s, At(i)),
                AfterRule(t, Two(Chr('D'), Class("012")), s, At(i)))
  {
    hide AfterItem;
    EndIsRule(t, CtorDtorName, s, i);
    TwoWays(t, Two(Chr('C'), Class("123")), Two(Chr('D'), Class("012")), s, At(i));
  }

  lemma LocalNameWays(t: Tables, s: string, i: nat)
    requires i <= |s|
    ensures AfterItem(t, Use(LocalName), s, i) ==
              Either(AfterRule(t, Five(Chr('Z'), Use(Encoding), Chr('E'), Use(Name), Maybe(Use(Discriminator))), s, At(i)),
                AfterRule(t, Four(Chr('Z'), Use(Encoding), Lit("Es"), Maybe(Use(Discriminator))), s, At(i)))
  {
    hide AfterItem;
    EndIsRule(t, LocalName, s, i);
    TwoWays(t, Five(Chr('Z'), Use(Encoding), Chr('E'), Use(Name), Maybe(Use(Discriminator))),
      Four(Chr('Z'), Use(Encoding), Lit("Es"), Maybe(Use(Discriminator))), s, At(i));
  }

  lemma CallOffsetWays(t: Tables, s: string, i: nat)
    requires i <= |s|
    ensures AfterItem(t, Use(CallOffset), s, i) ==
              Either(AfterRule(t, Three(Chr('h'), Number, Chr('_')), s, At(i)),
                AfterRule(t, Three(Chr('v'), Use(VOffset), Chr('_')), s, At(i)))
  {
    hide AfterItem;
    EndIsRule(t, CallOffset, s, i);
    TwoWays(t, Three(Chr('h'), Number, Chr('_')), Three(Chr('v'), Use(VOffset), Chr('_')), s, At(i));
  }

  lemma BuiltinTypeWays(t: Tables, s: string, i: nat)
    requires i <= |s|
    ensures AfterItem(t, Use(BuiltinType), s, i) ==
              Either(AfterItem(t, BuiltinLetter, s, i), AfterRule(t, Two(Chr('u'), Use(SourceName)), s, At(i)))
  {
    hide AfterItem;
    EndIsRule(t, BuiltinType, s, i);
    TwoWays(t, One(BuiltinLetter), Two(Chr('u'), Use(SourceName)), s, At(i));
    OneItem(t, BuiltinLetter, s, At(i));
  }

  lemma ArrayTypeWays(t: Tables, s: string, i: nat)
    requires i <= |s|
    ensures AfterItem(t, Use(ArrayType), s, i) ==
              Either(AfterRule(t, Four(Chr('A'), Number, Chr('_'), Use(Type)), s, At(i)),
                AfterRule(t, Four(Chr('A'), Maybe(Use(Expression)), Chr('_'), Use(Type)), s, At(i)))
  {
    hide AfterItem;
    EndIsRule(t, ArrayType, s, i);
    TwoWays(t, Four(Chr('A'), Number, Chr('_'), Use(Type)), Four(Chr('A'), Maybe(Use(Expression)), Chr('_'), Use(Type)),
      s, At(i));
  }

  lemma TemplateParamWays(t: Tables, s: string, i: nat)
    requires i <= |s|
    ensures AfterItem(t, Use(TemplateParam), s, i) ==
              Either(AfterItem(t, Lit("T_"), s, i), AfterRule(t, Three(Chr('T'), Number, Chr('_')), s, At(i)))
  {
    hide AfterItem;
    EndIsRule(t, TemplateParam, s, i);
    TwoWays(t, One(Lit("T_")), Three(Chr('T'), Number, Chr('_')), s, At(i));
    OneItem(t, Lit("T_"), s, At(i));
  }

  lemma TemplateTemplateParamWays(t: Tables, s: string, i: nat)
    requires i <= |s|
    ensures AfterItem(t, Use(TemplateTemplateParam), s, i) ==
              Either(AfterItem(t, Use(TemplateParam), s, i), AfterItem(t, Use(Substitution), s, i))
  {
    hide AfterItem;
    EndIsRule(t, TemplateTemplateParam, s, i);
    TwoWays(t, One(Use(TemplateParam)), One(Use(Substitution)), s, At(i));
    OneItem(t, Use(TemplateParam), s, At(i));
    OneItem(t, Use(Substitution), s, At(i));
  }

  lemma TemplateArgWays(t: Tables, s: string, i: nat)
    requires i <= |s|
    ensures AfterItem(t, Use(TemplateArg), s, i) ==
              Either(AfterItem(t, Use(Type), s, i),
              Either(AfterItem(t, Use(ExprPrimary), s, i),
              AfterRule(t, Three(Chr('X'), Use(Expression), Chr('E')), s, At(i))))
  {
    hide AfterItem;
    EndIsRule(t, TemplateArg, s, i);
    ThreeWays(t, One(Use(Type)), One(Use(ExprPrimary)), Three(Chr('X'), Use(Expression), Chr('E')), s, At(i));
    OneItem(t, Use(Type), s, At(i));
    OneItem(t, Use(ExprPrimary), s, At(i));
  }

  lemma SubstitutionWays(t: Tables, s: string, i: nat)
    requires i <= |s|
    ensures AfterItem(t, Use(Substitution), s, i) ==
              Either(AfterItem(t, Lit("S_"), s, i),
              Either(AfterRule(t, Three(Chr('S'), SeqId, Chr('_')), s, At(i)),
              AfterRule(t, Two(Chr('S'), SubstitutionLetter), s, At(i))))
  {
    hide AfterItem;
    EndIsRule(t, Substitution, s, i);
    ThreeWays(t, One(Lit("S_")), Three(Chr('S'), SeqId, Chr('_')), Two(Chr('S'), SubstitutionLetter), s, At(i));
    OneItem(t, Lit("S_"), s, At(i));
  }

  lemma ExprPrimaryWays(t: Tables, s: string, i: nat)
    requires i <= |s|
    ensures AfterItem(t, Use(ExprPrimary), s, i) ==
              Either(AfterRule(t, Four(Chr('L'), Use(Type), Number, Chr('E')), s, At(i)),
              Either(AfterRule(t, Four(Chr('L'), Use(Type), FloatNumber, Chr('E')), s, At(i)),
              Either(AfterRule(t, Three(Chr('L'), Use(MangledName), Chr('E')), s, At(i)),
              AfterRule(t, Three(Lit("LZ"), Use(Encoding), Chr('E')), s, At(i)))))
  {
    hide AfterItem;
    EndIsRule(t, ExprPrimary, s, i);
    FourWays(t, Four(Chr('L'), Use(Type), Number, Chr('E')), Four(Chr('L'), Use(Type), FloatNumber, Chr('E')),
      Three(Chr('L'), Use(MangledName), Chr('E')), Three(Lit("LZ"), Use(Encoding), Chr('E')), s, At(i));
  }

  lemma SpecialNameWays(t: Tables, s: string, i: nat)
    requires i <= |s|
    ensures AfterItem(t, Use(SpecialName), s, i) ==
              Either(AfterRule(t, Three(Chr('T'), Class("VTIS"), Use(Type)), s, At(i)),
              Either(AfterRule(t, Four(Lit("Tc"), Use(CallOffset), Use(CallOffset), Use(Encoding)), s, At(i)),
              Either(AfterRule(t, Two(Lit("GV"), Use(Name)), s, At(i)),
              Either(AfterRule(t, Three(Chr('T'), Use(CallOffset), Use(Encoding)), s, At(i)),
              AfterRule(t, GnuSpecialNames(), s, At(i))))))
  {
    hide AfterItem, GnuSpecialNames;
    EndIsRule(t, SpecialName, s, i);
    FourWays(t, Three(Chr('T'), Class("VTIS"), Use(Type)),
      Four(Lit("Tc"), Use(CallOffset), Use(CallOffset), Use(Encoding)), Two(Lit("GV"), Use(Name)),
      Or(Three(Chr('T'), Use(CallOffset), Use(Encoding)), GnuSpecialNames()), s, At(i));
    TwoWays(t, Three(Chr('T'), Use(CallOffset), Use(Encoding)), GnuSpecialNames(), s, At(i));
  }

  lemma GnuSpecialNamesWays(t: Tables, s: string, i: nat)
    requires i <= |s|
    ensures AfterRule(t, GnuSpecialNames(), s, At(i)) ==
              Either(AfterRule(t, Five(Lit("TC"), Use(Type), Number, Chr('_'), Use(Type)), s, At(i)),
              Either(AfterRule(t, Three(Chr('T'), Class("FJ"), Use(Type)), s, At(i)),
              Either(AfterRule(t, Two(Lit("GR"), Use(Name)), s, At(i)),
              Either(AfterRule(t, Two(Lit("GA"), Use(Encoding)), s, At(i)),
              AfterRule(t, Four(Chr('T'), Class("hv"), Use(CallOffset), Use(Encoding)), s, At(i))))))
  {
    hide AfterItem;
    FourWays(t, Five(Lit("TC"), Use(Type), Number, Chr('_'), Use(Type)), Three(Chr('T'), Class("FJ"), Use(Type)),
      Two(Lit("GR"), Use(Name)),
      Or(Two(Lit("GA"), Use(Encoding)), Four(Chr('T'), Class("hv"), Use(CallOffset), Use(Encoding))), s, At(i));
    TwoWays(t, Two(Lit("GA"), Use(Encoding)), Four(Chr('T'), Class("hv"), Use(CallOffset), Use(Encoding)), s, At(i));
  }

  lemma TypeWays(t: Tables, s: string, i: nat)
    requires i <= |s|
    ensures AfterItem(t, Use(Type), s, i) ==
              Either(AfterRule(t, Two(Use(CVQualifiers), Use(Type)), s, At(i)),
              Either(AfterRule(t, Two(Class("PRCG"), Use(Type)), s, At(i)),
              Either(AfterRule(t, Three(Chr('U'), Use(SourceName), Use(Type)), s, At(i)),
              AfterRule(t, PlainTypes(), s, At(i)))))
  {
    hide AfterItem, PlainTypes;
    EndIsRule(t, Type, s, i);
    FourWays(t, Two(Use(CVQualifiers), Use(Type)), Two(Class("PRCG"), Use(Type)),
      Three(Chr('U'), Use(SourceName), Use(Type)), PlainTypes(), s, At(i));
  }

  lemma PlainTypesWays(t: Tables, s: string, i: nat)
    requires i <= |s|
    ensures AfterRule(t, PlainTypes(), s, At(i)) ==
              Either(AfterItem(t, Use(BuiltinType), s, i),
              Either(AfterItem(t, Use(FunctionType), s, i),
              Either(AfterItem(t, Use(ClassEnumType), s, i),
              Either(AfterItem(t, Use(ArrayType), s, i),
              Either(AfterItem(t, Use(PointerToMemberType), s, i),
              AfterRule(t, ParameterTypes(), s, At(i)))))))
  {
    hide AfterItem, ParameterTypes;
    FourWays(t, One(Use(BuiltinType)), One(Use(FunctionType)), One(Use(ClassEnumType)),
      Or(One(Use(ArrayType)), Or(One(Use(PointerToMemberType)), ParameterTypes())), s, At(i));
    ThreeWays(t, One(Use(ArrayType)), One(Use(PointerToMemberType)), ParameterTypes(), s, At(i));
    OneItem(t, Use(BuiltinType), s, At(i));
    OneItem(t, Use(FunctionType), s, At(i));
    OneItem(t, Use(ClassEnumType), s, At(i));
    OneItem(t, Use(ArrayType), s, At(i));
    OneItem(t, Use(PointerToMemberType), s, At(i));
  }

  lemma ParameterTypesWays(t: Tables, s: string, i: nat)
    requires i <= |s|
    ensures AfterRule(t, ParameterTypes(), s, At(i)) ==
              Either(AfterItem(t, Use(Substitution), s, i),
              Either(AfterRule(t, Two(Use(TemplateTemplateParam), Use(TemplateArgs)), s, At(i)),
              AfterItem(t, Use(TemplateParam), s, i)))
  {
    hide AfterItem;
    ThreeWays(t, One(Use(Substitution)), Two(Use(TemplateTemplateParam), Use(TemplateArgs)), One(Use(TemplateParam)), s,
      At(i));
    OneItem(t, Use(Substitution), s, At(i));
    OneItem(t, Use(TemplateParam), s, At(i));
  }

  lemma ExpressionWays(t: Tables, s: string, i: nat)
    requires i <= |s|
    ensures AfterItem(t, Use(Expression), s, i) ==
              Either(AfterItem(t, Use(TemplateParam), s, i),
              Either(AfterItem(t, Use(ExprPrimary), s, i),
              AfterRule(t, Operations(), s, At(i))))
  {
    hide AfterItem, Operations;
    EndIsRule(t, Expression, s, i);
    ThreeWays(t, One(Use(TemplateParam)), One(Use(ExprPrimary)), Operations(), s, At(i));
    OneItem(t, Use(TemplateParam), s, At(i));
    OneItem(t, Use(ExprPrimary), s, At(i));
  }

  lemma OperationsWays(t: Tables, s: string, i: nat)
    requires i <= |s|
    ensures AfterRule(t, Operations(), s, At(i)) ==
              Either(AfterRule(t, Four(Use(OperatorName), Use(Expression), Use(Expression), Use(Expression)), s, At(i)),
              Either(AfterRule(t, Three(Use(OperatorName), Use(Expression), Use(Expression)), s, At(i)),
              Either(AfterRule(t, Two(Use(OperatorName), Use(Expression)), s, At(i)),
              AfterRule(t, ScopedNames(), s, At(i)))))
  {
    hide AfterItem, ScopedNames;
    FourWays(t, Four(Use(OperatorName), Use(Expression), Use(Expression), Use(Expression)),
      Three(Use(OperatorName), Use(Expression), Use(Expression)), Two(Use(OperatorName), Use(Expression)),
      ScopedNames(), s, At(i));
  }

  lemma ScopedNamesWays(t: Tables, s: string, i: nat)
    requires i <= |s|
    ensures AfterRule(t, ScopedNames(), s, At(i)) ==
              Either(AfterRule(t, Two(Lit("st"), Use(Type)), s, At(i)),
              Either(AfterRule(t, Four(Lit("sr"), Use(Type), Use(UnqualifiedName), Use(TemplateArgs)), s, At(i)),
              AfterRule(t, Three(Lit("sr"), Use(Type), Use(UnqualifiedName)), s, At(i))))
  {
    hide AfterItem;
    ThreeWays(t, Two(Lit("st"), Use(Type)), Four(Lit("sr"), Use(Type), Use(UnqualifiedName), Use(TemplateArgs)),
      Three(Lit("sr"), Use(Type), Use(UnqualifiedName)), s, At(i));
  }

  lemma OperatorTooShort(t: Tables, s: string, i: nat)
    requires i <= |s| < i + 2
    ensures AfterItem(t, Use(OperatorName), s, i) == Nowhere
  {
    OperatorNameWays(t, s, i);
    TwoItems(t, Lit("cv"), Use(Type), s, At(i));
    ThreeItems(t, Chr('v'), Class("0123456789"), Use(SourceName), s, At(i));
    hide End, ManyEnd, AfterRule;
  }
}
