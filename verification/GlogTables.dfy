/**
 The abbreviations of lib/glog/demangle.cc, with the lengths of their texts, and names that
 are accepted with them.
 */
module GlogTables {
  import opened Grammar
  import opened SimpleNames
  import Demangle

  const UNARY_OPERATORS: map<string, nat> :=
    map["nw" := 3, "na" := 5, "dl" := 6, "da" := 8, "ps" := 1, "ng" := 1, "ad" := 1, "de" := 1, "co" := 1]

  const ARITHMETIC_OPERATORS: map<string, nat> :=
    map["pl" := 1, "mi" := 1, "ml" := 1, "dv" := 1, "rm" := 1, "an" := 1, "or" := 1, "eo" := 1]

  const ASSIGNMENT_OPERATORS: map<string, nat> :=
    map["aS" := 1, "pL" := 2, "mI" := 2, "mL" := 2, "dV" := 2, "rM" := 2, "aN" := 2, "oR" := 2, "eO" := 2]

  const SHIFT_OPERATORS: map<string, nat> :=
    map["ls" := 2, "rs" := 2, "lS" := 3, "rS" := 3]

  const COMPARISON_OPERATORS: map<string, nat> :=
    map["eq" := 2, "ne" := 2, "lt" := 1, "gt" := 1, "le" := 2, "ge" := 2, "nt" := 1, "aa" := 2, "oo" := 2]

  const OTHER_OPERATORS: map<string, nat> :=
    map["pp" := 2, "mm" := 2, "cm" := 1, "pm" := 3, "pt" := 2, "cl" := 2, "ix" := 2, "qu" := 1, "st" := 6,
        "sz" := 6]

  const OPERATORS :=
    UNARY_OPERATORS + ARITHMETIC_OPERATORS + ASSIGNMENT_OPERATORS + SHIFT_OPERATORS + COMPARISON_OPERATORS + OTHER_OPERATORS

  const BUILTINS: map<char, nat> :=
    map['v' := 4, 'w' := 7, 'b' := 4, 'c' := 4, 'a' := 11, 'h' := 13, 's' := 5, 't' := 14,
        'i' := 3, 'j' := 12, 'l' := 4, 'm' := 13, 'x' := 9, 'y' := 18, 'n' := 8, 'o' := 17,
        'f' := 5, 'd' := 6, 'e' := 11, 'g' := 10, 'z' := 8]

  const SUBSTITUTIONS: map<char, nat> :=
    map['t' := 0, 'a' := 9, 'b' := 12, 's' := 6, 'i' := 7, 'o' := 7, 'd' := 8]

  const GLOG_TABLES := Tables(OPERATORS, BUILTINS, SUBSTITUTIONS)

  ghost predicate UpTo<T(!new)>(texts: map<T, nat>, longest: nat) {
    forall a | a in texts :: texts[a] <= longest
  }

  lemma BuiltinLetters()
    ensures forall c | c in BUILTINS :: IsLower(c) && c != 'r'
    ensures UpTo(BUILTINS, 18)
  {
  }

  lemma SubstitutionLetters()
    ensures '\0' !in SUBSTITUTIONS && UpTo(SUBSTITUTIONS, 18)
  {
  }

  lemma UnaryLengths()
    ensures UpTo(UNARY_OPERATORS, 18)
  {
  }

  lemma ArithmeticLengths()
    ensures UpTo(ARITHMETIC_OPERATORS, 18)
  {
  }

  lemma AssignmentLengths()
    ensures UpTo(ASSIGNMENT_OPERATORS, 18)
  {
  }

  lemma ShiftLengths()
    ensures UpTo(SHIFT_OPERATORS, 18)
  {
  }

  lemma ComparisonLengths()
    ensures UpTo(COMPARISON_OPERATORS, 18)
  {
  }

  lemma OtherLengths()
    ensures UpTo(OTHER_OPERATORS, 18)
  {
  }

  lemma Joined(a: map<string, nat>, b: map<string, nat>, longest: nat)
    requires UpTo(a, longest) && UpTo(b, longest)
    ensures UpTo(a + b, longest)
  {
  }

  lemma OperatorLengths()
    ensures UpTo(OPERATORS, 18)
  {
    hide UNARY_OPERATORS, ARITHMETIC_OPERATORS, ASSIGNMENT_OPERATORS, SHIFT_OPERATORS, COMPARISON_OPERATORS, OTHER_OPERATORS;
    UnaryLengths();
    ArithmeticLengths();
    AssignmentLengths();
    ShiftLengths();
    ComparisonLengths();
    OtherLengths();
    Joined(UNARY_OPERATORS, ARITHMETIC_OPERATORS, 18);
    Joined(UNARY_OPERATORS + ARITHMETIC_OPERATORS, ASSIGNMENT_OPERATORS, 18);
    Joined(UNARY_OPERATORS + ARITHMETIC_OPERATORS + ASSIGNMENT_OPERATORS, SHIFT_OPERATORS, 18);
    Joined(UNARY_OPERATORS + ARITHMETIC_OPERATORS + ASSIGNMENT_OPERATORS + SHIFT_OPERATORS, COMPARISON_OPERATORS, 18);
    Joined(UNARY_OPERATORS + ARITHMETIC_OPERATORS + ASSIGNMENT_OPERATORS + SHIFT_OPERATORS + COMPARISON_OPERATORS, OTHER_OPERATORS, 18);
  }

  lemma GlogTablesFit()
    ensures LowerBuiltins(GLOG_TABLES) && LengthsUpTo(GLOG_TABLES, 18)
    ensures '\0' !in BUILTINS && '\0' !in SUBSTITUTIONS
  {
    hide OPERATORS, BUILTINS, SUBSTITUTIONS;
    BuiltinLetters();
    SubstitutionLetters();
    OperatorLengths();
  }

  /**
   The entry point accepts every such name when the buffer is large enough, and without a
   negative length every step was one of the code's.
   */
  method DemangleSimpleName(mangled: string, outSize: nat) returns (ok: bool, stopped: bool)
    requires '\0' !in mangled && "_Z" <= mangled && SimpleNameEnd(mangled, 2).At?
    requires Signature(GLOG_TABLES, mangled, SimpleNameEnd(mangled, 2).cur)
    ensures (|mangled| + 79) * |mangled| < outSize ==> ok
    ensures Demangle.NoNegativeLength(mangled) ==> !stopped
  {
    hide OPERATORS, BUILTINS, SUBSTITUTIONS;
    GlogTablesFit();
    SimpleNamesAccepted(GLOG_TABLES, mangled);
    hide End, LengthsUpTo, LowerBuiltins;
    var state;
    ok, state := Demangle.Demangle(mangled, outSize, GLOG_TABLES, 18);
    stopped := state.stopped;
  }
}
