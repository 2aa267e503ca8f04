/**
 The grammar of lib/glog/demangle.cc as data: the productions of its BNF comments, how the
 recursive-descent parser reads them, and what they derive.
 */
module Grammar {
  predicate Digit(c: char) {
    '0' <= c <= '9'
  }

  predicate IsAlpha(c: char) {
    'a' <= c <= 'z' || 'A' <= c <= 'Z'
  }

  predicate IsLower(c: char) {
    'a' <= c <= 'z'
  }

  /** The end of the run of digits from i on. */
  function DigitsEnd(s: string, i: nat): (end: nat)
    requires i <= |s|
    ensures i <= end <= |s| && (end == |s| || !Digit(s[end]))
    ensures forall k | i <= k < end :: Digit(s[k])
    decreases |s| - i
  {
    if i < |s| && Digit(s[i]) then DigitsEnd(s, i + 1) else i
  }

  function DigitValue(c: char): (d: nat)
    requires Digit(c)
    ensures d < 10
  {
    c as int - '0' as int
  }

  /** The decimal value of the digits from..to. */
  function Decimal(s: string, from: nat, to: nat): (n: nat)
    requires from <= to <= |s| && forall k | from <= k < to :: Digit(s[k])
  {
    if from == to then 0 else Decimal(s, from, to - 1) * 10 + DigitValue(s[to - 1])
  }

  lemma {:induction false} DigitsEndUnique(s: string, i: nat, p: nat)
    requires i <= p <= |s| && (forall k | i <= k < p :: Digit(s[k])) && (p == |s| || !Digit(s[p]))
    ensures DigitsEnd(s, i) == p
    decreases p - i
  {
    if i < p {
      DigitsEndUnique(s, i + 1, p);
    }
  }

  // ---------- what a source-name reads ----------

  datatype Reading = NoNumber | Signed(end: nat, value: int)

  /** A number at i: an optional 'n' for minus, and digits. */
  function ReadNumber(s: string, i: nat): Reading
    requires i <= |s|
  {
    var negative := i < |s| && s[i] == 'n';
    var from := if negative then i + 1 else i;
    var end := DigitsEnd(s, from);
    if end == from then NoNumber
    else Signed(end, if negative then -(Decimal(s, from, end) as int) else Decimal(s, from, end))
  }

  datatype Place = Nowhere | At(cur: int)

  /** Where the cursor is after the source-name at i: its length is added even when it is negative. */
  function SourceNameEnd(s: string, i: nat): Place
    requires i <= |s|
  {
    match ReadNumber(s, i)
    case NoNumber => Nowhere
    case Signed(end, value) => if value == -1 || |s| - end < value then Nowhere else At(end + value)
  }

  /** The source-name at i is accepted without consuming anything. */
  predicate StandsStill(s: string, i: nat) {
    i <= |s| && SourceNameEnd(s, i).At? && SourceNameEnd(s, i).cur <= i
  }

  /** After an 'n', the digits i+1 .. end of value v give an end at end - v, unless v is 1. */
  lemma NegativeLength(s: string, i: nat)
    requires i + 1 < |s| && s[i] == 'n' && Digit(s[i + 1])
    ensures var end := DigitsEnd(s, i + 1); var v := Decimal(s, i + 1, end);
            && SourceNameEnd(s, i) == (if v == 1 then Nowhere else At(end - v))
            && (SourceNameEnd(s, i).At? && i < SourceNameEnd(s, i).cur <==> v != 1 && v < end - i)
            && (StandsStill(s, i) <==> end - i <= v)
  {
    var end := DigitsEnd(s, i + 1);
    assert DigitsEnd(s, i + 1) == DigitsEnd(s, i + 2);
    assert i + 1 < end;
  }

  /** Without an 'n' a source-name moves on. */
  lemma PositiveLength(s: string, i: nat)
    requires i <= |s| && (i < |s| ==> s[i] != 'n')
    ensures !StandsStill(s, i)
    ensures var end := DigitsEnd(s, i);
            SourceNameEnd(s, i) == if end == i || |s| - end < Decimal(s, i,
                end) then Nowhere else At(end + Decimal(s, i, end))
  {
  }

  /** The shortest example, behind any prefix. */
  lemma N2StandsStill(prefix: string)
    ensures var s := prefix + "n2"; SourceNameEnd(s, |prefix|) == At(|prefix|) && StandsStill(s, |prefix|)
  {
    var s, i := prefix + "n2", |prefix|;
    assert s[i] == 'n' && s[i + 1] == '2';
    assert DigitsEnd(s, i + 2) == i + 2 && DigitsEnd(s, i + 1) == i + 2;
    assert Decimal(s, i + 1, i + 1) == 0;
    assert Decimal(s, i + 1, i + 2) == 2;
    NegativeLength(s, i);
    assert StandsStill(s, i);
  }

  /** A source-name that would stand still can lie inside another, which is read as a whole. */
  lemma InnerName()
    ensures var s := "_Z5n2foo"; StandsStill(s, 3) && SourceNameEnd(s, 2) == At(|s|)
  {
    var s := "_Z5n2foo";
    assert s[3] == 'n' && s[4] == '2' && s[5] == 'f' && s[2] == '5';
    assert DigitsEnd(s, 5) == 5 && DigitsEnd(s, 4) == 5 && DigitsEnd(s, 3) == 3 && DigitsEnd(s, 2) == 3;
    assert Decimal(s, 4, 4) == 0 && Decimal(s, 2, 2) == 0;
    assert Decimal(s, 4, 5) == 2 && Decimal(s, 2, 3) == 5;
    NegativeLength(s, 3);
    PositiveLength(s, 2);
  }

  /** A source-name that stands still starts with an 'n' and a digit. */
  lemma StillStart(s: string, i: nat)
    requires StandsStill(s, i)
    ensures i + 1 < |s| && s[i] == 'n' && Digit(s[i + 1])
  {
    if i < |s| && s[i] == 'n' {
      assert DigitsEnd(s, i + 1) != i + 1;
    } else {
      PositiveLength(s, i);
    }
  }

  // ---------- the productions ----------

  /** The abbreviations of the source, with the lengths of what is printed for them. */
  datatype Tables = Tables(operators: map<string, nat>, builtins: map<char, nat>, substitutions: map<char, nat>)

  /** No text of the tables is longer. */
  ghost predicate LengthsUpTo(t: Tables, longest: nat) {
    && (forall a | a in t.operators :: t.operators[a] <= longest)
    && (forall a | a in t.builtins :: t.builtins[a] <= longest)
    && (forall a | a in t.substitutions :: t.substitutions[a] <= longest)
  }

  /** The nonterminals. */
  datatype Symbol =
    | MangledName | Encoding | Name | UnscopedName | UnscopedTemplateName | NestedName | Prefix | PrefixPart | PrefixTail
    | UnqualifiedName | SourceName | LocalSourceName | OperatorName | CtorDtorName | LocalName | Discriminator
    | SpecialName | CallOffset | VOffset
    | Type | CVQualifiers | BuiltinType | FunctionType | BareFunctionType | ClassEnumType | ArrayType | PointerToMemberType
    | TemplateParam | TemplateTemplateParam | TemplateArgs | TemplateArg | Substitution
    | Expression | ExprPrimary

  datatype Item =
    | Chr(c: char) | Lit(text: string) | Class(chars: string)
    | Number | FloatNumber | SeqId | LengthAndText | Qualifiers | Version
    | OperatorLetters | BuiltinLetter | SubstitutionLetter
    | Use(symbol: Symbol) | Maybe(item: Item) | Many(repeated: Symbol)

  /** A sequence of items, or alternatives in the order in which they are tried. */
  datatype Rule = Fail | Done | Then(item: Item, rest: Rule) | Or(first: Rule, others: Rule)

  function One(a: Item): Rule {
    Then(a, Done)
  }

  function Two(a: Item, b: Item): Rule {
    Then(a, One(b))
  }

  function Three(a: Item, b: Item, c: Item): Rule {
    Then(a, Two(b, c))
  }

  function Four(a: Item, b: Item, c: Item, d: Item): Rule {
    Then(a, Three(b, c, d))
  }

  function Five(a: Item, b: Item, c: Item, d: Item, e: Item): Rule {
    Then(a, Four(b, c, d, e))
  }

  /** The BNF comments.  A prefix and a template-prefix are merged, as the source says. */
  function RuleOf(p: Symbol): Rule {
    match p
    case MangledName | Encoding | Name | UnscopedName | UnscopedTemplateName | NestedName | Prefix | PrefixPart |
         PrefixTail => NameRule(p)
    case UnqualifiedName | SourceName | LocalSourceName | OperatorName | CtorDtorName | LocalName |
         Discriminator => UnqualifiedRule(p)
    case SpecialName | CallOffset | VOffset => SpecialRule(p)
    case Type | CVQualifiers | BuiltinType | FunctionType | BareFunctionType | ClassEnumType | ArrayType |
         PointerToMemberType => TypeRule(p)
    case TemplateParam | TemplateTemplateParam | TemplateArgs | TemplateArg | Substitution => TemplateRule(p)
    case Expression | ExprPrimary => ExpressionRule(p)
  }

  /** Names */
  function NameRule(p: Symbol): Rule {
    match p
    case MangledName => Three(Lit("_Z"), Use(Encoding), Maybe(Version))
    case Encoding => Or(Two(Use(Name), Use(BareFunctionType)), Or(One(Use(Name)), One(Use(SpecialName))))
    case Name =>
      Or(One(Use(NestedName)), Or(One(Use(LocalName)),
        Or(Two(Use(UnscopedTemplateName), Use(TemplateArgs)), One(Use(UnscopedName)))))
    case UnscopedName => Or(One(Use(UnqualifiedName)), Two(Lit("St"), Use(UnqualifiedName)))
    case UnscopedTemplateName => Or(One(Use(UnscopedName)), One(Use(Substitution)))
    case NestedName => Four(Chr('N'), Maybe(Use(CVQualifiers)), Maybe(Use(Prefix)), Chr('E'))
    case Prefix => Two(Many(PrefixPart), Maybe(Use(PrefixTail)))
    case PrefixPart => Or(One(Use(TemplateParam)), Or(One(Use(Substitution)), One(Use(UnscopedName))))
    case PrefixTail => Two(Use(TemplateArgs), Maybe(Use(Prefix)))
    case _ => Fail
  }

  /** Unqualified names and local names */
  function UnqualifiedRule(p: Symbol): Rule {
    match p
    case UnqualifiedName =>
      Or(One(Use(OperatorName)), Or(One(Use(CtorDtorName)), Or(One(Use(SourceName)), One(Use(LocalSourceName)))))
    case SourceName => One(LengthAndText)
    case LocalSourceName => Three(Chr('L'), Use(SourceName), Maybe(Use(Discriminator)))
    case OperatorName =>
      Or(Two(Lit("cv"), Use(Type)), Or(Three(Chr('v'), Class("0123456789"), Use(SourceName)), One(OperatorLetters)))
    case CtorDtorName => Or(Two(Chr('C'), Class("123")), Two(Chr('D'), Class("012")))
    case LocalName =>
      Or(Five(Chr('Z'), Use(Encoding), Chr('E'), Use(Name), Maybe(Use(Discriminator))),
        Four(Chr('Z'), Use(Encoding), Lit("Es"), Maybe(Use(Discriminator))))
    case Discriminator => Two(Chr('_'), Number)
    case _ => Fail
  }

  /** Special names */
  function SpecialRule(p: Symbol): Rule {
    match p
    case SpecialName =>
      Or(Three(Chr('T'), Class("VTIS"), Use(Type)), Or(Four(Lit("Tc"), Use(CallOffset), Use(CallOffset), Use(Encoding)),
        Or(Two(Lit("GV"), Use(Name)), Or(Three(Chr('T'), Use(CallOffset), Use(Encoding)), GnuSpecialNames()))))
    case CallOffset => Or(Three(Chr('h'), Number, Chr('_')), Three(Chr('v'), Use(VOffset), Chr('_')))
    case VOffset => Three(Number, Chr('_'), Number)
    case _ => Fail
  }

  /** The G++ extensions. */
  function GnuSpecialNames(): Rule {
    Or(Five(Lit("TC"), Use(Type), Number, Chr('_'), Use(Type)), Or(Three(Chr('T'), Class("FJ"), Use(Type)),
      Or(Two(Lit("GR"), Use(Name)),
          Or(Two(Lit("GA"), Use(Encoding)), Four(Chr('T'), Class("hv"), Use(CallOffset), Use(Encoding))))))
  }

  /** Types */
  function TypeRule(p: Symbol): Rule {
    match p
    case Type =>
      Or(Two(Use(CVQualifiers), Use(Type)), Or(Two(Class("PRCG"), Use(Type)),
        Or(Three(Chr('U'), Use(SourceName), Use(Type)), PlainTypes())))
    case CVQualifiers => One(Qualifiers)
    case BuiltinType => Or(One(BuiltinLetter), Two(Chr('u'), Use(SourceName)))
    case FunctionType => Four(Chr('F'), Maybe(Chr('Y')), Use(BareFunctionType), Chr('E'))
    case BareFunctionType => One(Many(Type))
    case ClassEnumType => One(Use(Name))
    case ArrayType =>
      Or(Four(Chr('A'), Number, Chr('_'), Use(Type)), Four(Chr('A'), Maybe(Use(Expression)), Chr('_'), Use(Type)))
    case PointerToMemberType => Three(Chr('M'), Use(Type), Use(Type))
    case _ => Fail
  }

  function PlainTypes(): Rule {
    Or(One(Use(BuiltinType)), Or(One(Use(FunctionType)), Or(One(Use(ClassEnumType)),
      Or(One(Use(ArrayType)), Or(One(Use(PointerToMemberType)), ParameterTypes())))))
  }

  function ParameterTypes(): Rule {
    Or(One(Use(Substitution)), Or(Two(Use(TemplateTemplateParam), Use(TemplateArgs)), One(Use(TemplateParam))))
  }

  /** Template parameters and arguments, substitutions */
  function TemplateRule(p: Symbol): Rule {
    match p
    case TemplateParam => Or(One(Lit("T_")), Three(Chr('T'), Number, Chr('_')))
    case TemplateTemplateParam => Or(One(Use(TemplateParam)), One(Use(Substitution)))
    case TemplateArgs => Three(Chr('I'), Many(TemplateArg), Chr('E'))
    case TemplateArg => Or(One(Use(Type)), Or(One(Use(ExprPrimary)), Three(Chr('X'), Use(Expression), Chr('E'))))
    case Substitution =>
      Or(One(Lit("S_")), Or(Three(Chr('S'), SeqId, Chr('_')), Two(Chr('S'), SubstitutionLetter)))
    case _ => Fail
  }

  /** Expressions */
  function ExpressionRule(p: Symbol): Rule {
    match p
    case Expression => Or(One(Use(TemplateParam)), Or(One(Use(ExprPrimary)), Operations()))
    case ExprPrimary =>
      Or(Four(Chr('L'), Use(Type), Number, Chr('E')), Or(Four(Chr('L'), Use(Type), FloatNumber, Chr('E')),
        Or(Three(Chr('L'), Use(MangledName), Chr('E')), Three(Lit("LZ"), Use(Encoding), Chr('E')))))
    case _ => Fail
  }

  function Operations(): Rule {
    Or(Four(Use(OperatorName), Use(Expression), Use(Expression), Use(Expression)),
      Or(Three(Use(OperatorName), Use(Expression), Use(Expression)),
        Or(Two(Use(OperatorName), Use(Expression)), ScopedNames())))
  }

  function ScopedNames(): Rule {
    Or(Two(Lit("st"), Use(Type)), Or(Four(Lit("sr"), Use(Type), Use(UnqualifiedName), Use(TemplateArgs)),
      Three(Lit("sr"), Use(Type), Use(UnqualifiedName))))
  }

  /** Before anything has been consumed a symbol leads to symbols of lower rank only. */
  function Rank(p: Symbol): (r: nat)
    ensures r < TOP
  {
    match p
    case TemplateTemplateParam | PrefixTail | UnqualifiedName | Expression => 1
    case UnscopedName => 2
    case UnscopedTemplateName | PrefixPart => 3
    case Name | Prefix => 4
    case Encoding | ClassEnumType => 5
    case Type => 6
    case BareFunctionType | TemplateArg => 7
    case _ => 0
  }

  const TOP: nat := 8

  // ---------- terminals ----------

  function HexDigitsEnd(s: string, i: nat): (end: nat)
    requires i <= |s|
    ensures i <= end <= |s|
    decreases |s| - i
  {
    if i < |s| && (Digit(s[i]) || 'a' <= s[i] <= 'f') then HexDigitsEnd(s, i + 1) else i
  }

  function Base36End(s: string, i: nat): (end: nat)
    requires i <= |s|
    ensures i <= end <= |s|
    decreases |s| - i
  {
    if i < |s| && (Digit(s[i]) || 'A' <= s[i] <= 'Z') then Base36End(s, i + 1) else i
  }

  function Skip(s: string, i: nat, c: char): (end: nat)
    requires i <= |s|
    ensures i <= end <= |s|
  {
    if i < |s| && s[i] == c then i + 1 else i
  }

  function Further(i: nat, end: nat): Place {
    if i < end then At(end) else Nowhere
  }

  function TerminalEnd(t: Tables, item: Item, s: string, i: nat): (r: Place)
    requires i <= |s|
    ensures r.At? ==> i < r.cur <= |s|
  {
    match item
    case Chr(c) => if i < |s| && s[i] == c then At(i + 1) else Nowhere
    case Lit(text) => if |text| == 2 && text <= s[i..] then At(i + 2) else Nowhere
    case Class(chars) => if i < |s| && s[i] in chars then At(i + 1) else Nowhere
    case Number => if ReadNumber(s, i).Signed? then At(ReadNumber(s, i).end) else Nowhere
    case FloatNumber => Further(i, HexDigitsEnd(s, i))
    case SeqId => Further(i, Base36End(s, i))
    case LengthAndText =>
      var e := SourceNameEnd(s, i);
      if e.At? && i < e.cur then e else Nowhere
    case Qualifiers => Further(i, Skip(s, Skip(s, Skip(s, i, 'r'), 'V'), 'K'))
    case Version => if i < |s| && s[i] == '@' then At(|s|) else Nowhere
    case OperatorLetters =>
      if i + 2 <= |s| && IsLower(s[i]) && IsAlpha(s[i + 1]) && s[i..i + 2] in t.operators then At(i + 2) else Nowhere
    case BuiltinLetter => if i < |s| && s[i] in t.builtins then At(i + 1) else Nowhere
    case SubstitutionLetter => if i < |s| && s[i] in t.substitutions then At(i + 1) else Nowhere
    case _ => Nowhere
  }

  // ---------- how the parser reads ----------

  /** What a rule can start with has a lower rank, and is not an optional item: no production derives the empty text. */
  predicate Leads(r: Rule, rank: nat) {
    match r
    case Fail => true
    case Done => false
    case Then(item, rest) => LeadsItem(item, rank)
    case Or(first, others) => Leads(first, rank) && Leads(others, rank)
  }

  predicate LeadsItem(item: Item, rank: nat) {
    match item
    case Use(q) => Rank(q) < rank
    case Many(q) => Rank(q) < rank
    case Maybe(it) => false
    case _ => true
  }

  predicate LongRule(p: Symbol) {
    p.Name? || p.UnqualifiedName? || p.SpecialName? || p.Type? || p.Expression? || p.ExprPrimary?
  }

  lemma LongNamesLead()
    ensures Leads(NameRule(Name), 4)
  {
  }

  lemma LongUnqualifiedNamesLead()
    ensures Leads(UnqualifiedRule(UnqualifiedName), 1)
  {
  }

  lemma LongSpecialNamesLead()
    ensures Leads(SpecialRule(SpecialName), 0)
  {
  }

  lemma PlainTypesLead()
    ensures Leads(PlainTypes(), 6)
  {
    assert Leads(ParameterTypes(), 6);
    hide ParameterTypes;
  }

  lemma LongTypesLead()
    ensures Leads(TypeRule(Type), 6)
  {
    PlainTypesLead();
    hide PlainTypes;
  }

  lemma LongExpressionsLead()
    ensures Leads(ExpressionRule(Expression), 1)
  {
  }

  lemma LongPrimariesLead()
    ensures Leads(ExpressionRule(ExprPrimary), 0)
  {
  }

  lemma NameRulesRanked(p: Symbol)
    requires !LongRule(p)
    ensures Leads(NameRule(p), Rank(p))
  {
  }

  lemma UnqualifiedRulesRanked(p: Symbol)
    requires !LongRule(p)
    ensures Leads(UnqualifiedRule(p), Rank(p))
  {
  }

  lemma SpecialRulesRanked(p: Symbol)
    requires !LongRule(p)
    ensures Leads(SpecialRule(p), Rank(p))
  {
  }

  lemma TypeRulesRanked(p: Symbol)
    requires !LongRule(p)
    ensures Leads(TypeRule(p), Rank(p))
  {
  }

  lemma TemplateRulesRanked(p: Symbol)
    requires !LongRule(p)
    ensures Leads(TemplateRule(p), Rank(p))
  {
  }

  lemma ExpressionRulesRanked(p: Symbol)
    requires !LongRule(p)
    ensures Leads(ExpressionRule(p), Rank(p))
  {
  }

  lemma RulesRanked(p: Symbol)
    ensures Leads(RuleOf(p), Rank(p))
  {
    hide Leads, NameRule, UnqualifiedRule, SpecialRule, TypeRule, TemplateRule, ExpressionRule;
    if LongRule(p) {
      LongNamesLead();
      LongUnqualifiedNamesLead();
      LongSpecialNamesLead();
      LongTypesLead();
      LongExpressionsLead();
      LongPrimariesLead();
    } else {
      NameRulesRanked(p);
      UnqualifiedRulesRanked(p);
      SpecialRulesRanked(p);
      TypeRulesRanked(p);
      TemplateRulesRanked(p);
      ExpressionRulesRanked(p);
    }
  }

  /**
   Where the parser for p ends when it starts at i: the first alternative that succeeds, and
   in a sequence one item after the other, optional and repeated ones as far as they go.
   */
  function End(t: Tables, p: Symbol, s: string, i: nat): (r: Place)
    requires i <= |s|
    ensures r.At? ==> i < r.cur <= |s|
    decreases |s| - i, 4 * Rank(p) + 1
  {
    RulesRanked(p);
    Follow(t, RuleOf(p), s, i, i, Rank(p))
  }

  function ManyEnd(t: Tables, p: Symbol, s: string, i: nat): (r: Place)
    requires i <= |s|
    ensures r.At? ==> i < r.cur <= |s|
    decreases |s| - i, 4 * Rank(p) + 2
  {
    var e := End(t, p, s, i);
    if e.At? && ManyEnd(t, p, s, e.cur).At? then ManyEnd(t, p, s, e.cur) else e
  }

  function ItemEnd(t: Tables, item: Item, s: string, start: nat, i: nat, rank: nat): (r: Place)
    requires start <= i <= |s| && rank < TOP
    ensures r.At? ==> i <= r.cur <= |s| && (!item.Maybe? ==> i < r.cur)
    decreases |s| - i, if i == start then 4 * rank else 4 * TOP, 1, item
  {
    match item
    case Use(q) => if start < i || Rank(q) < rank then End(t, q, s, i) else Nowhere
    case Many(q) => if start < i || Rank(q) < rank then ManyEnd(t, q, s, i) else Nowhere
    case Maybe(it) => Either(ItemEnd(t, it, s, start, i, rank), At(i))
    case _ => TerminalEnd(t, item, s, i)
  }

  function Follow(t: Tables, r: Rule, s: string, start: nat, i: nat, rank: nat): (e: Place)
    requires start <= i <= |s| && rank < TOP
    ensures e.At? ==> i <= e.cur <= |s| && (Leads(r, rank) ==> i < e.cur)
    decreases |s| - i, if i == start then 4 * rank else 4 * TOP, 2, r
  {
    match r
    case Fail => Nowhere
    case Done => At(i)
    case Then(item, rest) =>
      var e := ItemEnd(t, item, s, start, i, rank);
      if e.At? then Follow(t, rest, s, start, e.cur, rank) else Nowhere
    case Or(first, others) => Either(Follow(t, first, s, start, i, rank), Follow(t, others, s, start, i, rank))
  }

  function Either(first: Place, second: Place): Place {
    if first.At? then first else second
  }

  // ---------- the reading of a rule ----------

  function AfterItem(t: Tables, item: Item, s: string, i: nat): (r: Place)
    requires i <= |s|
    ensures r.At? ==> i <= r.cur <= |s|
  {
    match item
    case Use(q) => End(t, q, s, i)
    case Many(q) => ManyEnd(t, q, s, i)
    case Maybe(it) => Either(AfterItem(t, it, s, i), At(i))
    case _ => TerminalEnd(t, item, s, i)
  }

  function Next(t: Tables, item: Item, s: string, place: Place): (r: Place)
    requires place.At? ==> 0 <= place.cur <= |s|
    ensures r.At? ==> 0 <= r.cur <= |s|
  {
    if place.At? then AfterItem(t, item, s, place.cur) else Nowhere
  }

  function AfterRule(t: Tables, r: Rule, s: string, place: Place): Place
    requires place.At? ==> 0 <= place.cur <= |s|
    decreases r
  {
    match r
    case Fail => Nowhere
    case Done => place
    case Then(item, rest) => AfterRule(t, rest, s, Next(t, item, s, place))
    case Or(first, others) => Either(AfterRule(t, first, s, place), AfterRule(t, others, s, place))
  }

  lemma {:induction false} ItemIsRead(t: Tables, item: Item, s: string, start: nat, i: nat, rank: nat)
    requires start <= i <= |s| && rank < TOP
    requires start < i || LeadsItem(item, rank)
    ensures ItemEnd(t, item, s, start, i, rank) == AfterItem(t, item, s, i)
  {
    if item.Maybe? {
      ItemIsRead(t, item.item, s, start, i, rank);
    }
  }

  lemma {:induction false} NowhereStays(t: Tables, r: Rule, s: string)
    ensures AfterRule(t, r, s, Nowhere) == Nowhere
  {
    match r
    case Fail | Done =>
    case Then(item, rest) => NowhereStays(t, rest, s);
    case Or(first, others) =>
      NowhereStays(t, first, s);
      NowhereStays(t, others, s);
  }

  lemma {:induction false} FollowIsRule(t: Tables, r: Rule, s: string, start: nat, i: nat, rank: nat)
    requires start <= i <= |s| && rank < TOP
    requires start < i || Leads(r, rank)
    ensures Follow(t, r, s, start, i, rank) == AfterRule(t, r, s, At(i))
    decreases r
  {
    match r
    case Fail =>
    case Done =>
    case Then(item, rest) =>
      ItemIsRead(t, item, s, start, i, rank);
      var e := ItemEnd(t, item, s, start, i, rank);
      if e.At? {
        FollowIsRule(t, rest, s, start, e.cur, rank);
      } else {
        NowhereStays(t, rest, s);
      }
    case Or(first, others) =>
      FollowIsRule(t, first, s, start, i, rank);
      FollowIsRule(t, others, s, start, i, rank);
  }

  /** The ranks cut nothing off: a production ends where its rule says, item by item. */
  lemma EndIsRule(t: Tables, p: Symbol, s: string, i: nat)
    requires i <= |s|
    ensures AfterItem(t, Use(p), s, i) == AfterRule(t, RuleOf(p), s, At(i))
  {
    RulesRanked(p);
    hide RuleOf, Rank, Leads, ItemEnd;
    FollowIsRule(t, RuleOf(p), s, i, i, Rank(p));
  }

  // ---------- what the productions derive ----------

  /**
   The text i..j is derived from the rule: by any of the alternatives, with optional and
   repeated items as often as one likes.  No order and no greed is involved.
   */
  least predicate Derives(t: Tables, r: Rule, s: string, i: nat, j: nat) {
    match r
    case Fail => false
    case Done => i == j
    case Then(item, rest) => exists k: nat :: Produces(t, item, s, i, k) && Derives(t, rest, s, k, j)
    case Or(first, others) => Derives(t, first, s, i, j) || Derives(t, others, s, i, j)
  }

  least predicate Produces(t: Tables, item: Item, s: string, i: nat, j: nat) {
    match item
    case Use(q) => Derives(t, RuleOf(q), s, i, j)
    case Maybe(it) => i == j || Produces(t, it, s, i, j)
    case Many(q) => exists k: nat :: Derives(t, RuleOf(q), s, i, k) && (k == j || Produces(t, item, s, k, j))
    case _ => i <= |s| && TerminalEnd(t, item, s, i) == At(j)
  }

  /** Whatever the parser accepts is derived. */
  lemma {:induction false} EndDerives(t: Tables, p: Symbol, s: string, i: nat)
    requires i <= |s| && End(t, p, s, i).At?
    ensures Derives(t, RuleOf(p), s, i, End(t, p, s, i).cur)
    decreases |s| - i, 4 * Rank(p) + 1
  {
    hide RuleOf;
    FollowDerives(t, RuleOf(p), s, i, i, Rank(p));
  }

  lemma {:induction false} ManyDerives(t: Tables, p: Symbol, s: string, i: nat)
    requires i <= |s| && ManyEnd(t, p, s, i).At?
    ensures Produces(t, Many(p), s, i, ManyEnd(t, p, s, i).cur)
    decreases |s| - i, 4 * Rank(p) + 2
  {
    hide RuleOf, End, Rank, TerminalEnd;
    var e := End(t, p, s, i);
    EndDerives(t, p, s, i);
    if ManyEnd(t, p, s, e.cur).At? {
      ManyDerives(t, p, s, e.cur);
    }
  }

  lemma {:induction false} ItemDerives(t: Tables, item: Item, s: string, start: nat, i: nat, rank: nat)
    requires start <= i <= |s| && rank < TOP && ItemEnd(t, item, s, start, i, rank).At?
    ensures Produces(t, item, s, i, ItemEnd(t, item, s, start, i, rank).cur)
    decreases |s| - i, if i == start then 4 * rank else 4 * TOP, 1, item
  {
    hide RuleOf, End, ManyEnd, TerminalEnd;
    match item
    case Use(q) => EndDerives(t, q, s, i);
    case Many(q) => ManyDerives(t, q, s, i);
    case Maybe(it) =>
      if ItemEnd(t, it, s, start, i, rank).At? {
        ItemDerives(t, it, s, start, i, rank);
      }
    case _ =>
  }

  lemma {:induction false} FollowDerives(t: Tables, r: Rule, s: string, start: nat, i: nat, rank: nat)
    requires start <= i <= |s| && rank < TOP && Follow(t, r, s, start, i, rank).At?
    ensures Derives(t, r, s, i, Follow(t, r, s, start, i, rank).cur)
    decreases |s| - i, if i == start then 4 * rank else 4 * TOP, 2, r
  {
    hide RuleOf, End, ItemEnd, Rank;
    match r
    case Done =>
    case Then(item, rest) =>
      var e := ItemEnd(t, item, s, start, i, rank);
      ItemDerives(t, item, s, start, i, rank);
      FollowDerives(t, rest, s, start, e.cur, rank);
    case Or(first, others) =>
      if Follow(t, first, s, start, i, rank).At? {
        FollowDerives(t, first, s, start, i, rank);
      } else {
        FollowDerives(t, others, s, start, i, rank);
      }
  }
}
