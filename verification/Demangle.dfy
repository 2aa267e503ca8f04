/**
 lib/glog/demangle.cc: the recursive-descent parser for mangled C++ names, over a State
 that is advanced in place and restored from copies.  The text that is printed is kept
 as a cursor into the output buffer; the name tables are arbitrary.
 */
module Demangle {
  import opened Grammar
  import opened GrammarSteps

  /** A copy of the State, to go back to. */
  datatype Copy = Copy(cur: int, outCur: nat, prevName: int, prevNameLength: int, nestLevel: int, number: int,
                       append: bool, overflowed: bool)

  /** One of the places is the start of a source-name that stands still. */
  ghost predicate StillAmong(s: string, places: set<int>) {
    exists i: nat :: i in places && StandsStill(s, i)
  }

  lemma NoPlaces(s: string)
    ensures !StillAmong(s, {})
  {
  }

  lemma OneMorePlace(s: string, places: set<int>, i: nat)
    ensures StillAmong(s, places + {i}) <==> StillAmong(s, places) || StandsStill(s, i)
  {
    hide StandsStill;
    if StillAmong(s, places) {
      var k: nat :| k in places && StandsStill(s, k);
      assert k in places + {i};
    }
    assert i in places + {i};
  }

  /** No 'n' is followed by a digit. */
  predicate NoNegativeLength(s: string) {
    forall i: nat | i + 1 < |s| :: s[i] == 'n' ==> !Digit(s[i + 1])
  }

  lemma NothingStill(s: string, places: set<int>)
    requires NoNegativeLength(s)
    ensures !StillAmong(s, places)
  {
    hide StandsStill;
    if StillAmong(s, places) {
      var i: nat :| i in places && StandsStill(s, i);
      StillStart(s, i);
    }
  }

  lemma ProductGrows(rate: nat, a: int, b: int)
    requires a < b
    ensures rate * a + rate <= rate * b
  {
    assert 0 <= rate * (b - a - 1);
    assert rate * (b - a - 1) == rate * b - rate * a - rate;
  }

  class State {
    const mangled: string                // without the terminating NUL
    const outSize: nat
    const tables: Tables
    ghost const longest: nat             // no text of the tables is longer
    var cur: int
    var outCur: nat
    var prevName: int                    // offset of the last name printed, -1 for none
    var prevNameLength: int
    var nestLevel: int
    var number: int
    var append: bool
    var overflowed: bool
    var stopped: bool                    // a source-name has been accepted without consuming anything
    ghost var read: set<int>             // where a source-name has been looked for

    constructor (mangled: string, outSize: nat, tables: Tables, ghost longest: nat)
      requires '\0' !in mangled && '\0' !in tables.builtins && '\0' !in tables.substitutions && LengthsUpTo(tables, longest)
      ensures Valid() && this.mangled ==
                mangled && this.outSize == outSize && this.tables == tables && this.longest == longest
      ensures !stopped && read == {}
      ensures Save() == Copy(0, 0, -1, -1, -1, -1, true, false)
    {
      this.mangled, this.outSize, this.tables, this.longest := mangled, outSize, tables, longest;
      cur, outCur, prevName, prevNameLength := 0, 0, -1, -1;
      nestLevel, number, append, overflowed := -1, -1, true, false;
      stopped := false;
      read := {};
      new;
      NoPlaces(mangled);
    }

    /** No name or text of a table that is printed at once is longer. */
    ghost function Limit(): nat {
      |mangled| + longest + 21
    }

    /** The output cursor stays inside the buffer; the model stops exactly when a source-name that was read stands still. */
    ghost predicate Sound()
      reads this`outCur, this`stopped, this`read
    {
      && (outCur == 0 || outCur < outSize)
      && LengthsUpTo(tables, longest)
      && '\0' !in mangled && '\0' !in tables.builtins && '\0' !in tables.substitutions
      && (stopped <==> StillAmong(mangled, read))
    }

    /** The cursors stay inside the name and the output buffer. */
    ghost predicate Valid()
      reads this
    {
      Sound() && 0 <= cur <= |mangled|
    }

    function Save(): (copy: Copy)
      reads this
      ensures Sound() ==> Restorable(copy)
    {
      Copy(cur, outCur, prevName, prevNameLength, nestLevel, number, append, overflowed)
    }

    lemma LetterText(c: char)
      requires Sound()
      ensures c in tables.builtins ==> c != '\0' && tables.builtins[c] <= longest
      ensures c in tables.substitutions ==> c != '\0' && tables.substitutions[c] <= longest
    {
    }

    lemma OperatorText(a: string)
      requires Sound()
      ensures a in tables.operators ==> tables.operators[a] <= longest
    {
    }

    predicate Restorable(copy: Copy) {
      copy.outCur == 0 || copy.outCur < outSize
    }

    method Restore(copy: Copy)
      requires Sound() && Restorable(copy)
      modifies this
      ensures Save() == copy && Sound() && stopped == old(stopped) && read == old(read)
    {
      cur, outCur, prevName, prevNameLength := copy.cur, copy.outCur, copy.prevName, copy.prevNameLength;
      nestLevel, number, append, overflowed := copy.nestLevel, copy.number, copy.append, copy.overflowed;
    }

    /** *mangled_cur, which is the NUL at the end. */
    function Peek(): char
      requires Valid()
      reads this
    {
      if cur < |mangled| then mangled[cur] else '\0'
    }

    /** What printing may do: nothing while append is off, and never back unless the buffer was full. */
    twostate predicate Printed()
      reads this
    {
      && Sound() && append == old(append) && (old(overflowed) ==> overflowed) && old(read) <= read
      && (!overflowed ==> old(outCur) <= outCur)
      && (!old(append) ==> outCur == old(outCur) && overflowed == old(overflowed) && prevName == old(prevName)
                           && prevNameLength == old(prevNameLength))
    }

    /** Printing leaves the rest of the State alone. */
    twostate predicate OnlyPrinted()
      reads this
    {
      Printed() && cur == old(cur) && nestLevel == old(nestLevel) && number == old(number) && read == old(read)
    }

    /** More than is ever printed for one character of the name. */
    ghost function Rate(): (r: nat)
      ensures 61 <= r
    {
      Limit() + 40
    }

    /** What is left of the buffer when every remaining character is paid for. */
    ghost function Margin(): int
      reads this`cur, this`outCur
    {
      outSize - outCur - Rate() * (|mangled| - cur)
    }

    /** At most n characters have been printed, and they fitted if there was room for n. */
    twostate predicate PrintedUpTo(n: nat)
      reads this`outCur, this`overflowed, this`prevNameLength
    {
      old(prevNameLength) <= Limit() ==>
        && prevNameLength <= Limit()
        && (!old(overflowed) && old(outCur) + n < outSize ==> !overflowed && outCur <= old(outCur) + n)
    }

    /** With a margin there is no overflow, and the margin has grown. */
    twostate predicate Roomy(threshold: int, gain: int)
      reads this`cur, this`outCur, this`overflowed, this`prevNameLength
    {
      !old(overflowed) && old(prevNameLength) <= Limit() && threshold < old(Margin()) ==>
        !overflowed && prevNameLength <= Limit() && old(Margin()) + gain <= Margin()
    }

    /** Printing alone uses up the margin. */
    twostate lemma Spent(n: int)
      requires 0 <= n && 0 <= cur == old(cur) <= |mangled| && PrintedUpTo(n)
      ensures Roomy(n, -n)
    {
      ProductGrows(Rate(), -1, |mangled| - cur);
    }

    /** A character that has been consumed pays for what has been printed. */
    twostate lemma Paid(n: nat)
      requires 0 <= old(cur) < cur <= |mangled| && PrintedUpTo(n) && n <= Rate()
      ensures Roomy(0, Rate() - n)
    {
      ProductGrows(Rate(), |mangled| - cur, |mangled| - old(cur));
      ProductGrows(Rate(), -1, |mangled| - cur);
    }

    /**
     The convention of the grammar parsers: success consumes input, failure leaves the
     State as it was, and either way the append flag and the nest level are balanced.
     As long as `stopped` is not set, every step is one of the code's.
     */
    twostate predicate Parsed(ok: bool)
      reads this
    {
      && Printed() && Valid() && nestLevel == old(nestLevel)
      && (ok ==> old(cur) < cur && Roomy(0, 4))
      && (!ok ==> Save() == old(Save()))
    }

    /** Where the grammar continues after an item, or after a rule, from the cursor on. */
    ghost function After(item: Item): Place
      requires 0 <= cur <= |mangled|
      reads this`cur
    {
      AfterItem(tables, item, mangled, cur)
    }

    ghost function Along(rule: Rule): Place
      requires 0 <= cur <= |mangled|
      reads this`cur
    {
      AfterRule(tables, rule, mangled, At(cur))
    }

    /** A parser succeeds exactly where the grammar goes on, and then ends there. */
    ghost predicate Lands(ok: bool, place: Place)
      reads this`cur
    {
      place == if ok then At(cur) else Nowhere
    }

    // ---------- characters ----------

    method ParseChar(c: char) returns (ok: bool)
      requires Valid()
      modifies this`cur
      ensures Parsed(ok) && Lands(ok, old(After(Chr(c)))) && cur == old(cur) + (if ok then 1 else 0)
      ensures ok ==> Roomy(0, Rate())
      ensures ok <==> old(cur) < |mangled| && mangled[old(cur)] == c
    {
      hide End, ManyEnd;
      if cur < |mangled| && mangled[cur] == c {
        cur := cur + 1;
        Paid(0);
        return true;
      }
      return false;
    }

    method ParseTwoChar(twoChars: string) returns (ok: bool)
      requires Valid() && |twoChars| == 2
      modifies this`cur
      ensures Parsed(ok) && Lands(ok, old(After(Lit(twoChars)))) && cur == old(cur) + (if ok then 2 else 0)
      ensures ok ==> Roomy(0, Rate())
      ensures ok <==> twoChars <= mangled[old(cur)..]
    {
      hide End, ManyEnd;
      if |mangled| - cur >= 2 && mangled[cur] == twoChars[0] && mangled[cur + 1] == twoChars[1] {
        cur := cur + 2;
        Paid(0);
        return true;
      }
      return false;
    }

    method ParseCharClass(charClass: string) returns (ok: bool)
      requires Valid()
      modifies this`cur
      ensures Parsed(ok) && Lands(ok, old(After(Class(charClass)))) && cur == old(cur) + (if ok then 1 else 0)
      ensures ok ==> Roomy(0, Rate())
      ensures ok <==> old(cur) < |mangled| && mangled[old(cur)] in charClass
    {
      hide End, ManyEnd;
      if cur == |mangled| {
        return false;
      }
      for p := 0 to |charClass|
        invariant mangled[cur] !in charClass[..p] && cur == old(cur)
      {
        if mangled[cur] == charClass[p] {
          cur := cur + 1;
          Paid(0);
          return true;
        }
      }
      return false;
    }

    // ---------- output ----------

    /** Where the output cursor ends up: one byte is kept for the terminating NUL. */
    function Written(from: nat, length: nat): nat {
      if from + length < outSize then from + length else if from + 1 < outSize then outSize - 1 else from
    }

    /** Append: characters are written until the buffer is full. */
    method Append(length: nat)
      requires Valid()
      modifies this`outCur, this`overflowed
      ensures Valid() && outCur == Written(old(outCur), length)
      ensures overflowed <==> old(overflowed) || outCur != old(outCur) + length
    {
      for i := 0 to length
        invariant Valid() && outCur == old(outCur) + i && (i == 0 || outCur < outSize) && overflowed == old(overflowed)
      {
        if outCur + 1 < outSize {
          outCur := outCur + 1;
        } else {
          overflowed := true;
          break;
        }
      }
    }

    /** first is the first character of the text; whether a '<' stands before it depends on what was printed. */
    method MaybeAppendWithLength(first: char, length: int)
      requires Valid()
      modifies this`outCur, this`overflowed, this`prevName, this`prevNameLength
      ensures OnlyPrinted() && (length <= 0 ==> Save() == old(Save()))
      ensures append && 0 < length && first != '<' ==>
                outCur == Written(old(outCur), length) && (overflowed <==> old(overflowed) || outCur != old(outCur) + length)
      ensures 0 < length <= Limit() ==> PrintedUpTo(length + 1)
      ensures !IsAlpha(first) && first != '_' ==> prevName == old(prevName) && prevNameLength == old(prevNameLength)
    {
      if append && length > 0 {
        var afterAngle: bool := *;
        if first == '<' && 0 < outCur && afterAngle {
          Append(1);
        }
        if IsAlpha(first) || first == '_' {
          prevName := outCur;
          prevNameLength := length;
        }
        Append(length);
      }
    }

    method MaybeAppend(first: char, length: nat)
      requires Valid()
      modifies this`outCur, this`overflowed, this`prevName, this`prevNameLength
      ensures OnlyPrinted()
      ensures append && 0 < length && first != '<' ==>
                outCur == Written(old(outCur), length) && (overflowed <==> old(overflowed) || outCur != old(outCur) + length)
      ensures length <= Limit() ==> PrintedUpTo(length + 1) && Roomy(length + 1, -1 - length)
      ensures !IsAlpha(first) && first != '_' ==> prevName == old(prevName) && prevNameLength == old(prevNameLength)
    {
      if append {
        MaybeAppendWithLength(first, length);
      }
      if length <= Limit() { Spent(length + 1); }
    }

    method MaybeIncreaseNestLevel()
      modifies this`nestLevel
      ensures nestLevel == if old(nestLevel) > -1 then old(nestLevel) + 1 else old(nestLevel)
    {
      if nestLevel > -1 {
        nestLevel := nestLevel + 1;
      }
    }

    predicate PrintsSeparator()
      reads this
    {
      nestLevel >= 1 && append
    }

    method MaybeAppendSeparator()
      requires Valid()
      modifies this`outCur, this`overflowed, this`prevName, this`prevNameLength
      ensures OnlyPrinted() && prevName == old(prevName) && prevNameLength == old(prevNameLength)
      ensures PrintedUpTo(2)
      ensures outCur == if PrintsSeparator() then Written(old(outCur), 2) else old(outCur)
      ensures overflowed <==> old(overflowed) || (PrintsSeparator() && outCur != old(outCur) + 2)
    {
      if nestLevel >= 1 {
        MaybeAppend(':', 2);
      }
    }

    method MaybeCancelLastSeparator()
      requires Valid()
      modifies this`outCur
      ensures Valid() && outCur == old(outCur) - if PrintsSeparator() && 2 <= old(outCur) then 2 else 0
    {
      if nestLevel >= 1 && append && 2 <= outCur {
        outCur := outCur - 2;
      }
    }

    /**
     A separator and its cancellation, as in ParsePrefix when no name follows: nothing is
     left behind if the separator fitted.  If it did not, the State has overflowed, and as
     many characters of the text before it are lost as the separator was short of.
     */
    method SeparatorRoundTrip()
      requires Valid()
      modifies this`outCur, this`overflowed, this`prevName, this`prevNameLength
      ensures Valid()
      ensures !PrintsSeparator() || old(outCur) + 2 < outSize ==> Save() == old(Save())
      ensures PrintsSeparator() && outSize <= old(outCur) + 2 ==>
                && overflowed && outCur <= old(outCur) + 1
                && (2 < outSize ==> outCur == outSize - 3 && old(outCur) - 2 <= outCur < old(outCur))
    {
      MaybeAppendSeparator();
      MaybeCancelLastSeparator();
    }

    // ---------- numbers and names ----------

    /** Fails after an 'n' without a digit, and then does not give the 'n' back. */
    method ParseNumber() returns (ok: bool)
      requires Valid()
      modifies this`cur, this`number
      ensures Printed() && Valid() && Lands(ok, old(After(Number))) && nestLevel == old(nestLevel) && read == old(read)
      ensures ok <==> ReadNumber(mangled, old(cur)).Signed?
      ensures ok ==> old(cur) < cur && ReadNumber(mangled, old(cur)) == Signed(cur, number)
      ensures ok ==> Roomy(0, Rate())
      ensures outCur == old(outCur) && overflowed == old(overflowed) && prevNameLength == old(prevNameLength)
      ensures !ok ==> number == old(number)
      ensures !ok ==> cur == old(cur) + if old(cur) < |mangled| && mangled[old(cur)] == 'n' then 1 else 0
    {
      hide Margin, Rate, AfterItem;
      NumberItem(tables, mangled, cur);
      var sign := 1;
      var negative := ParseChar('n');
      if negative {
        sign := -1;
      }
      var p: int := cur;
      var n := 0;
      while p < |mangled|
        invariant cur <= p <= |mangled| && (forall k | cur <= k < p :: Digit(mangled[k])) && n == Decimal(mangled, cur, p)
      {
        if Digit(mangled[p]) {
          n := n * 10 + DigitValue(mangled[p]);
        } else {
          break;
        }
        p := p + 1;
      }
      DigitsEndUnique(mangled, cur, p);
      if p != cur {
        cur := p;
        number := n * sign;
        Paid(0);
        return true;
      }
      return false;
    }

    method ParseFloatNumber() returns (ok: bool)
      requires Valid()
      modifies this`cur, this`number
      ensures Parsed(ok) && Lands(ok, old(After(FloatNumber)))
    {
      hide End, ManyEnd;
      var p := cur;
      var n := 0;
      while p < |mangled|
        invariant cur <= p <= |mangled| && HexDigitsEnd(mangled, cur) == HexDigitsEnd(mangled, p)
      {
        var c := mangled[p];
        if Digit(c) {
          n := n * 16 + (c as int - '0' as int);
        } else if 'a' <= c <= 'f' {
          n := n * 16 + (c as int - 'a' as int + 10);
        } else {
          break;
        }
        p := p + 1;
      }
      if p != cur {
        cur := p;
        number := n;
        Paid(0);
        return true;
      }
      return false;
    }

    method ParseSeqId() returns (ok: bool)
      requires Valid()
      modifies this`cur, this`number
      ensures Parsed(ok) && Lands(ok, old(After(SeqId)))
    {
      hide End, ManyEnd;
      var p := cur;
      var n := 0;
      while p < |mangled|
        invariant cur <= p <= |mangled| && Base36End(mangled, cur) == Base36End(mangled, p)
      {
        var c := mangled[p];
        if Digit(c) {
          n := n * 36 + (c as int - '0' as int);
        } else if 'A' <= c <= 'Z' {
          n := n * 36 + (c as int - 'A' as int + 10);
        } else {
          break;
        }
        p := p + 1;
      }
      if p != cur {
        cur := p;
        number := n;
        Paid(0);
        return true;
      }
      return false;
    }

    /** The number just read is added to the cursor, also a negative one; only -1 is refused. */
    method ParseIdentifier() returns (ok: bool)
      requires Valid()
      modifies this
      ensures Printed() && nestLevel == old(nestLevel) && read == old(read)
      ensures ok <==> old(number) != -1 && old(number) <= |mangled| - old(cur)
      ensures ok ==> cur == old(cur) + old(number) && number == -1
      ensures PrintedUpTo(Limit() + 1)
      ensures !ok ==> Save() == old(Save())
    {
      if number == -1 || |mangled| - cur < number {
        return false;
      }
      // The comparison with a size_t turns a negative number into a large one.
      var prefix := "_GLOBAL__N_";
      if (number > |prefix| || number < 0) && prefix <= mangled[cur..] {
        MaybeAppend('(', 21);
      } else {
        MaybeAppendWithLength(Peek(), number);
      }
      cur := cur + number;
      number := -1;
      return true;
    }

    /** source-name: a number and an identifier of that length.  This is the code on every input. */
    method ParseSourceName() returns (ok: bool)
      requires Valid()
      modifies this
      ensures Printed() && nestLevel == old(nestLevel) && read == old(read)
      ensures ok <==> SourceNameEnd(mangled, old(cur)).At?
      ensures ok ==> cur == SourceNameEnd(mangled, old(cur)).cur <= |mangled|
      ensures PrintedUpTo(Limit() + 1)
      ensures !ok ==> Save() == old(Save())
    {
      var copy := Save();
      ok := ParseNumber();
      if ok { ok := ParseIdentifier(); }
      if ok { return true; }
      Restore(copy);
      return false;
    }

    /** As the grammar uses it: the model stops where the code would go on from the same place or an earlier one. */
    method AdvanceSourceName() returns (ok: bool)
      requires Valid()
      modifies this
      ensures Parsed(ok) && Lands(ok, old(After(Use(SourceName))))
      ensures ok <==> SourceNameEnd(mangled, old(cur)).At? && old(cur) < SourceNameEnd(mangled, old(cur)).cur
      ensures ok ==> cur == SourceNameEnd(mangled, old(cur)).cur
      ensures stopped <==> old(stopped) || StandsStill(mangled, old(cur))
      ensures read == old(read) + {old(cur)}
    {
      hide AfterItem, SourceNameEnd, StillAmong;
      SourceNameItems(tables, mangled, cur);
      var copy := Save();
      ok := ParseSourceName();
      var still := ok && cur <= copy.cur;
      if still {
        Restore(copy);
        ok := false;
      }
      if ok { Paid(Limit() + 1); }
      assert still == StandsStill(mangled, copy.cur);
      OneMorePlace(mangled, read, copy.cur);
      stopped := stopped || still;
      read := read + {copy.cur};
    }

    // ---------- the grammar ----------

    /** discriminator */
    method ParseDiscriminator() returns (ok: bool)
      requires Valid()
      modifies this
      ensures Parsed(ok) && Lands(ok, old(After(Use(Discriminator))))
    {
      hide Margin, Rate, Sound, Restorable, AfterItem, AfterRule;
      DiscriminatorItems(tables, mangled, cur);
      var copy := Save();
      ok := ParseChar('_');
      if ok { ok := ParseNumber(); }
      if ok { return true; }
      Restore(copy);
      return false;
    }

    /** local-source-name */
    method ParseLocalSourceName() returns (ok: bool)
      requires Valid()
      modifies this
      ensures Parsed(ok) && Lands(ok, old(After(Use(LocalSourceName))))
    {
      hide Margin, Rate, Sound, Restorable, AfterItem, AfterRule;
      LocalSourceNameItems(tables, mangled, cur);
      var copy := Save();
      ok := ParseChar('L');
      if ok { ok := AdvanceSourceName(); }
      if ok {
        MaybeItem(tables, Use(Discriminator), mangled, cur);
        var discriminator := ParseDiscriminator();
        return true;
      }
      Restore(copy);
      return false;
    }

    /** v-offset */
    method ParseVOffset() returns (ok: bool)
      requires Valid()
      modifies this
      ensures Parsed(ok) && Lands(ok, old(After(Use(VOffset))))
    {
      hide Margin, Rate, Sound, Restorable, AfterItem, AfterRule, ReadNumber;
      VOffsetItems(tables, mangled, cur);
      var copy := Save();
      ok := ParseNumber();
      if ok { ok := ParseChar('_'); }
      if ok { ok := ParseNumber(); }
      if ok { return true; }
      Restore(copy);
      return false;
    }

    /** call-offset; nv-offset is a number */
    method ParseNonVirtualOffset() returns (ok: bool)
      requires Valid()
      modifies this
      ensures Parsed(ok) && Lands(ok, old(Along(Three(Chr('h'), Number, Chr('_')))))
    {
      hide Margin, Rate, Sound, Restorable, AfterItem, AfterRule, ReadNumber;
      ThreeItems(tables, Chr('h'), Number, Chr('_'), mangled, At(cur));
      var copy := Save();
      ok := ParseChar('h');
      if ok { ok := ParseNumber(); }
      if ok { ok := ParseChar('_'); }
      if ok { return true; }
      Restore(copy);
      return false;
    }

    method ParseVirtualOffset() returns (ok: bool)
      requires Valid()
      modifies this
      ensures Parsed(ok) && Lands(ok, old(Along(Three(Chr('v'), Use(VOffset), Chr('_')))))
    {
      hide Margin, Rate, Sound, Restorable, AfterItem, AfterRule;
      ThreeItems(tables, Chr('v'), Use(VOffset), Chr('_'), mangled, At(cur));
      var copy := Save();
      ok := ParseChar('v');
      if ok { ok := ParseVOffset(); }
      if ok { ok := ParseChar('_'); }
      if ok { return true; }
      Restore(copy);
      return false;
    }

    method ParseCallOffset() returns (ok: bool)
      requires Valid()
      modifies this
      ensures Parsed(ok) && Lands(ok, old(After(Use(CallOffset))))
    {
      hide Margin, Rate, AfterItem, AfterRule;
      CallOffsetWays(tables, mangled, cur);
      ok := ParseNonVirtualOffset();
      if !ok { ok := ParseVirtualOffset(); }
    }

    method ParseConstructor() returns (ok: bool)
      requires Valid()
      modifies this
      ensures Parsed(ok) && Lands(ok, old(Along(Two(Chr('C'), Class("123")))))
      ensures ok ==> mangled[old(cur)] == 'C'
    {
      hide Margin, AfterItem, AfterRule, Sound, Restorable, Written;
      TwoItems(tables, Chr('C'), Class("123"), mangled, At(cur));
      var copy := Save();
      var first: char := *;
      ok := ParseChar('C');
      if ok { ok := ParseCharClass("123"); }
      if ok {
        MaybeAppendWithLength(first, prevNameLength);
        Paid(Limit() + 1);
        return true;
      }
      Restore(copy);
      return false;
    }

    method ParseDestructor() returns (ok: bool)
      requires Valid()
      modifies this
      ensures Parsed(ok) && Lands(ok, old(Along(Two(Chr('D'), Class("012")))))
      ensures ok ==> mangled[old(cur)] == 'D'
    {
      hide Margin, AfterItem, AfterRule, Sound, Restorable, Written;
      TwoItems(tables, Chr('D'), Class("012"), mangled, At(cur));
      var copy := Save();
      var first: char := *;
      ok := ParseChar('D');
      if ok { ok := ParseCharClass("012"); }
      if ok {
        var length := prevNameLength;
        MaybeAppend('~', 1);
        MaybeAppendWithLength(first, length);
        Paid(Limit() + 3);
        return true;
      }
      Restore(copy);
      return false;
    }

    /** ctor-dtor-name: the last name is printed again */
    method ParseCtorDtorName() returns (ok: bool)
      requires Valid()
      modifies this
      ensures Parsed(ok) && Lands(ok, old(After(Use(CtorDtorName))))
      ensures ok ==> mangled[old(cur)] == 'C' || mangled[old(cur)] == 'D'
    {
      hide Margin, Rate, AfterItem, AfterRule;
      CtorDtorNameWays(tables, mangled, cur);
      ok := ParseConstructor();
      if !ok { ok := ParseDestructor(); }
    }

    /** CV-qualifiers, not empty */
    method ParseCVQualifiers() returns (ok: bool)
      requires Valid()
      modifies this
      ensures Parsed(ok) && Lands(ok, old(After(Use(CVQualifiers))))
      ensures ok <==> old(cur) < |mangled| && mangled[old(cur)] in "rVK"
    {
      hide Margin, Rate, End, ManyEnd, Sound, Restorable;
      CVQualifiersItems(tables, mangled, cur);
      var r := ParseChar('r');
      var v := ParseChar('V');
      var k := ParseChar('K');
      return r || v || k;
    }

    /** template-param: T number _ */
    method ParseNumberedParam() returns (ok: bool)
      requires Valid()
      modifies this
      ensures Parsed(ok) && Lands(ok, old(Along(Three(Chr('T'), Number, Chr('_')))))
      ensures ok ==> mangled[old(cur)] == 'T'
    {
      hide Margin, Rate, Sound, Restorable, AfterItem, AfterRule, ReadNumber, Written;
      ThreeItems(tables, Chr('T'), Number, Chr('_'), mangled, At(cur));
      var copy := Save();
      ok := ParseChar('T');
      if ok { ok := ParseNumber(); }
      if ok { ok := ParseChar('_'); }
      if ok {
        MaybeAppend('?', 1);
        Paid(2);
        return true;
      }
      Restore(copy);
      return false;
    }

    /** template-param */
    method ParseTemplateParam() returns (ok: bool)
      requires Valid()
      modifies this
      ensures Parsed(ok) && Lands(ok, old(After(Use(TemplateParam))))
      ensures ok ==> mangled[old(cur)] == 'T'
    {
      hide Margin, Rate, AfterItem, AfterRule, Written;
      TemplateParamWays(tables, mangled, cur);
      ok := ParseTwoChar("T_");
      if ok {
        MaybeAppend('?', 1);
        Paid(2);
        return true;
      }
      ok := ParseNumberedParam();
    }

    /** substitution: S seq-id _ */
    method ParseNumberedSubstitution() returns (ok: bool)
      requires Valid()
      modifies this
      ensures Parsed(ok) && Lands(ok, old(Along(Three(Chr('S'), SeqId, Chr('_')))))
      ensures ok ==> mangled[old(cur)] == 'S'
    {
      hide Margin, Rate, Sound, Restorable, AfterItem, AfterRule, LengthsUpTo, Written;
      ThreeItems(tables, Chr('S'), SeqId, Chr('_'), mangled, At(cur));
      var copy := Save();
      ok := ParseChar('S');
      if ok { ok := ParseSeqId(); }
      if ok { ok := ParseChar('_'); }
      if ok {
        MaybeAppend('?', 1);
        Paid(2);
        return true;
      }
      Restore(copy);
      return false;
    }

    /** substitution: St and the like */
    method ParseAbbreviation() returns (ok: bool)
      requires Valid()
      modifies this
      ensures Parsed(ok) && Lands(ok, old(Along(Two(Chr('S'), SubstitutionLetter))))
      ensures ok ==> mangled[old(cur)] == 'S'
    {
      hide Margin, AfterRule, End, ManyEnd, Sound, Restorable, LengthsUpTo, Written;
      TwoItems(tables, Chr('S'), SubstitutionLetter, mangled, At(cur));
      var copy := Save();
      ok := ParseChar('S');
      LetterText(Peek());
      if ok && Peek() in tables.substitutions {
        var length := tables.substitutions[Peek()];
        MaybeAppend('s', 3);
        if length != 0 {
          MaybeAppend(':', 2);
          MaybeAppend('a', length);
        }
        cur := cur + 1;
        Paid(longest + 8);
        return true;
      }
      Restore(copy);
      return false;
    }

    /** substitution */
    method ParseSubstitution() returns (ok: bool)
      requires Valid()
      modifies this
      ensures Parsed(ok) && Lands(ok, old(After(Use(Substitution))))
      ensures ok ==> mangled[old(cur)] == 'S'
    {
      hide Margin, Rate, AfterItem, AfterRule, Sound, Restorable, LengthsUpTo, Written;
      SubstitutionWays(tables, mangled, cur);
      ok := ParseTwoChar("S_");
      if ok {
        MaybeAppend('?', 1);
        Paid(2);
        return true;
      }
      ok := ParseNumberedSubstitution();
      if !ok { ok := ParseAbbreviation(); }
    }

    /** template-template-param */
    method ParseTemplateTemplateParam() returns (ok: bool)
      requires Valid()
      modifies this
      ensures Parsed(ok) && Lands(ok, old(After(Use(TemplateTemplateParam))))
    {
      hide Margin, Rate, AfterItem, AfterRule;
      TemplateTemplateParamWays(tables, mangled, cur);
      ok := ParseTemplateParam();
      if !ok {
        ok := ParseSubstitution();
      }
    }

    /** builtin-type */
    method ParseBuiltinType() returns (ok: bool)
      requires Valid()
      modifies this
      ensures Parsed(ok) && Lands(ok, old(After(Use(BuiltinType))))
    {
      hide Margin, AfterRule, End, ManyEnd, Sound, Restorable, LengthsUpTo, Written;
      BuiltinTypeWays(tables, mangled, cur);
      TwoItems(tables, Chr('u'), Use(SourceName), mangled, At(cur));
      var c := Peek();
      LetterText(c);
      if c in tables.builtins {
        MaybeAppend('v', tables.builtins[c]);
        cur := cur + 1;
        Paid(longest + 1);
        return true;
      }
      var copy := Save();
      ok := ParseChar('u');
      if ok { ok := AdvanceSourceName(); }
      if ok { return true; }
      Restore(copy);
      return false;
    }

    /** mangled-name; after "_Z" a failure does not go back. */
    method ParseMangledName() returns (ok: bool)
      requires Valid()
      modifies this
      ensures Printed() && Valid() && Lands(ok, old(After(Use(MangledName)))) && nestLevel == old(nestLevel)
      ensures ok ==> old(cur) + 2 < cur && Roomy(0, 4) && "_Z" <= mangled[old(cur)..]
      ensures !ok ==> Save() == if "_Z" <= mangled[old(cur)..] then old(Save()).(cur := old(cur) + 2) else old(Save())
      decreases |mangled| - cur, 0
    {
      hide Margin, AfterItem, AfterRule, Sound, Restorable, Written;
      MangledNameItems(tables, mangled, cur);
      ok := ParseTwoChar("_Z");
      if ok { ok := ParseEncoding(); }
      VersionItem(tables, mangled, cur);
      if ok && cur < |mangled| && mangled[cur] == '@' {
        label version:
        MaybeAppend('@', |mangled| - cur);
        cur := |mangled|;
        Paid@version(|mangled| + 1);
      }
    }

    /** encoding */
    method ParseEncoding() returns (ok: bool)
      requires Valid()
      modifies this
      ensures Parsed(ok) && Lands(ok, old(After(Use(Encoding))))
      decreases |mangled| - cur, 6
    {
      hide Margin, Rate, AfterItem, AfterRule, Sound, Restorable;
      EncodingWays(tables, mangled, cur);
      TwoItems(tables, Use(Name), Use(BareFunctionType), mangled, At(cur));
      var copy := Save();
      ok := ParseName();
      if ok { ok := ParseBareFunctionType(); }
      if ok { return true; }
      Restore(copy);
      ok := ParseName();
      if !ok { ok := ParseSpecialName(); }
    }

    /** name */
    method ParseName() returns (ok: bool)
      requires Valid()
      modifies this
      ensures Parsed(ok) && Lands(ok, old(After(Use(Name))))
      decreases |mangled| - cur, 5
    {
      hide Margin, Rate, AfterItem, AfterRule;
      NameWays(tables, mangled, cur);
      TwoItems(tables, Use(UnscopedTemplateName), Use(TemplateArgs), mangled, At(cur));
      ok := ParseNestedName();
      if !ok { ok := ParseLocalName(); }
      if ok { return true; }
      var copy := Save();
      ok := ParseUnscopedTemplateName();
      if ok { ok := ParseTemplateArgs(); }
      if ok { return true; }
      Restore(copy);
      ok := ParseUnscopedName();
    }

    /** unscoped-name */
    method ParseUnscopedName() returns (ok: bool)
      requires Valid()
      modifies this
      ensures Parsed(ok) && Lands(ok, old(After(Use(UnscopedName))))
      decreases |mangled| - cur, 3
    {
      hide Margin, Rate, AfterItem, AfterRule, Written, PrintedUpTo;
      UnscopedNameWays(tables, mangled, cur);
      TwoItems(tables, Lit("St"), Use(UnqualifiedName), mangled, At(cur));
      ok := ParseUnqualifiedName();
      if ok { return true; }
      var copy := Save();
      ok := ParseTwoChar("St");
      if ok {
        MaybeAppend('s', 5);
        ok := ParseUnqualifiedName();
      }
      if ok { return true; }
      Restore(copy);
      return false;
    }

    /** unscoped-template-name */
    method ParseUnscopedTemplateName() returns (ok: bool)
      requires Valid()
      modifies this
      ensures Parsed(ok) && Lands(ok, old(After(Use(UnscopedTemplateName))))
      decreases |mangled| - cur, 4
    {
      hide Margin, Rate, AfterItem, AfterRule;
      UnscopedTemplateNameWays(tables, mangled, cur);
      ok := ParseUnscopedName();
      if !ok { ok := ParseSubstitution(); }
    }

    /** nested-name */
    method ParseNestedName() returns (ok: bool)
      requires Valid()
      modifies this
      ensures Parsed(ok) && Lands(ok, old(After(Use(NestedName))))
      decreases |mangled| - cur, 0
    {
      hide Margin, Rate, Sound, Restorable, AfterItem, AfterRule;
      NestedNameItems(tables, mangled, cur);
      var copy := Save();
      ok := ParseChar('N');
      if ok {
        nestLevel := 0;
        MaybeItem(tables, Use(CVQualifiers), mangled, cur);
        var qualified := ParseCVQualifiers();
        ok := ParsePrefix();
      }
      if ok {
        nestLevel := copy.nestLevel;
        ok := ParseChar('E');
      }
      if ok { return true; }
      Restore(copy);
      return false;
    }

    /** A part of a prefix: the three alternatives that the loop of ParsePrefix tries */
    method ParsePart() returns (ok: bool)
      requires Valid()
      modifies this
      ensures Parsed(ok) && Lands(ok, old(After(Use(PrefixPart))))
      decreases |mangled| - cur, 4, 0
    {
      hide Margin, Rate, AfterItem, AfterRule, Sound, Restorable;
      PrefixPartWays(tables, mangled, cur);
      ok := ParseTemplateParam();
      if !ok { ok := ParseSubstitution(); }
      if !ok { ok := ParseUnscopedName(); }
    }

    /** One part of a prefix, with the separator before it, which is cancelled if nothing follows. */
    method ParsePrefixPart() returns (ok: bool)
      requires Valid()
      modifies this
      ensures Roomy(2, 0)
      ensures Printed() && Valid() && Lands(ok, old(After(Use(PrefixPart))))
      ensures if ok then old(cur) < cur else cur == old(cur)
      decreases |mangled| - cur, 4
    {
      hide Margin, Rate, AfterItem, AfterRule, Sound, Restorable, Written, PrintedUpTo;
      MaybeAppendSeparator();
      Spent(2);
      ok := ParsePart();
      if ok {
        MaybeIncreaseNestLevel();
      } else {
        MaybeCancelLastSeparator();
      }
    }

    /** prefix: always succeeds, and may be empty. */
    method ParsePrefix() returns (ok: bool)
      requires Valid()
      modifies this
      ensures Roomy(2, 0)
      ensures ok && Printed() && Valid() && Lands(ok, old(After(Maybe(Use(Prefix))))) && old(cur) <= cur
      decreases |mangled| - cur, 5
    {
      hide Margin, Rate, AfterItem, AfterRule, Sound, Restorable, ReadNumber, StandsStill, SourceNameEnd;
      PrefixItems(tables, mangled, cur);
      var hasSomething := false;
      while true
        invariant Roomy(2, 0)
        invariant Printed() && Valid() && old(cur) <= cur && (hasSomething <==> old(cur) < cur)
        invariant old(After(Maybe(Many(PrefixPart)))) == After(Maybe(Many(PrefixPart)))
        decreases |mangled| - cur
      {
        ManyItem(tables, PrefixPart, mangled, cur);
        ok := ParsePrefixPart();
        if ok {
          hasSomething := true;
          continue;
        }
        if hasSomething {
          ok := ParseTemplateArgs();
          if ok {
            ok := ParsePrefix();
            return true;
          }
        }
        break;
      }
      return true;
    }

    /** unqualified-name */
    method ParseUnqualifiedName() returns (ok: bool)
      requires Valid()
      modifies this
      ensures Parsed(ok) && Lands(ok, old(After(Use(UnqualifiedName))))
      decreases |mangled| - cur, 2
    {
      hide Margin, Rate, AfterItem, AfterRule;
      UnqualifiedNameWays(tables, mangled, cur);
      ok := ParseOperatorName();
      if !ok { ok := ParseCtorDtorName(); }
      if !ok { ok := AdvanceSourceName(); }
      if !ok { ok := ParseLocalSourceName(); }
    }

    /** operator-name: cv type */
    method ParseCast() returns (ok: bool)
      requires Valid()
      modifies this
      ensures Parsed(ok) && Lands(ok, old(Along(Two(Lit("cv"), Use(Type)))))
      ensures ok ==> mangled[old(cur)] == 'c'
      decreases |mangled| - cur, 0
    {
      hide Margin, Rate, Sound, Restorable, AfterItem, AfterRule, Written, PrintedUpTo;
      TwoItems(tables, Lit("cv"), Use(Type), mangled, At(cur));
      var copy := Save();
      ok := ParseTwoChar("cv");
      if ok {
        MaybeAppend('o', 9);
        nestLevel := 0;
        ok := ParseType();
      }
      if ok {
        nestLevel := copy.nestLevel;
        return true;
      }
      Restore(copy);
      return false;
    }

    /** operator-name: v digit source-name */
    method ParseVendorOperator() returns (ok: bool)
      requires Valid()
      modifies this
      ensures Parsed(ok) && Lands(ok, old(Along(Three(Chr('v'), Class("0123456789"), Use(SourceName)))))
      ensures ok ==> mangled[old(cur)] == 'v'
    {
      hide Margin, Rate, Sound, Restorable, AfterItem, AfterRule;
      ThreeItems(tables, Chr('v'), Class("0123456789"), Use(SourceName), mangled, At(cur));
      var copy := Save();
      ok := ParseChar('v');
      if ok { ok := ParseCharClass("0123456789"); }
      if ok { ok := AdvanceSourceName(); }
      if ok { return true; }
      Restore(copy);
      return false;
    }

    /** operator-name: two letters from the list */
    method ParseListedOperator() returns (ok: bool)
      requires Valid()
      modifies this
      ensures Parsed(ok) && Lands(ok, old(After(OperatorLetters)))
      ensures ok ==> old(cur) + 1 < |mangled| && IsAlpha(mangled[old(cur) + 1])
    {
      hide Margin, End, ManyEnd, Sound, Restorable, LengthsUpTo, Written;
      if |mangled| - cur < 2 || !(IsLower(mangled[cur]) && IsAlpha(mangled[cur + 1])) {
        return false;
      }
      OperatorText(mangled[cur..cur + 2]);
      if mangled[cur..cur + 2] in tables.operators {
        MaybeAppend('o', 8);
        var isWord: bool := *;
        if isWord {
          MaybeAppend(' ', 1);
        }
        MaybeAppend(if isWord then 'n' else '+', tables.operators[mangled[cur..cur + 2]]);
        cur := cur + 2;
        Paid(longest + 12);
        return true;
      }
      return false;
    }

    /** operator-name */
    method ParseOperatorName() returns (ok: bool)
      requires Valid()
      modifies this
      ensures Parsed(ok) && Lands(ok, old(After(Use(OperatorName))))
      ensures ok && mangled[old(cur)] == 'n' ==> old(cur) + 1 < |mangled| && IsAlpha(mangled[old(cur) + 1])
      decreases |mangled| - cur, 1
    {
      hide Margin, Rate, AfterItem, AfterRule;
      OperatorNameWays(tables, mangled, cur);
      if |mangled| - cur < 2 {
        OperatorTooShort(tables, mangled, cur);
        return false;
      }
      ok := ParseCast();
      if !ok { ok := ParseVendorOperator(); }
      if !ok { ok := ParseListedOperator(); }
    }

    /** T, a letter, and a type */
    method ParseSpecialType(charClass: string) returns (ok: bool)
      requires Valid()
      modifies this
      ensures Parsed(ok) && Lands(ok, old(Along(Three(Chr('T'), Class(charClass), Use(Type)))))
      decreases |mangled| - cur, 0
    {
      hide Margin, Rate, Sound, Restorable, AfterItem, AfterRule;
      ThreeItems(tables, Chr('T'), Class(charClass), Use(Type), mangled, At(cur));
      var copy := Save();
      ok := ParseChar('T');
      if ok { ok := ParseCharClass(charClass); }
      if ok { ok := ParseType(); }
      if ok { return true; }
      Restore(copy);
      return false;
    }

    /** GV or GR, and a name */
    method ParseSpecialObject(twoChars: string) returns (ok: bool)
      requires Valid() && |twoChars| == 2
      modifies this
      ensures Parsed(ok) && Lands(ok, old(Along(Two(Lit(twoChars), Use(Name)))))
      decreases |mangled| - cur, 0
    {
      hide Margin, Rate, Sound, Restorable, AfterItem, AfterRule;
      TwoItems(tables, Lit(twoChars), Use(Name), mangled, At(cur));
      var copy := Save();
      ok := ParseTwoChar(twoChars);
      if ok { ok := ParseName(); }
      if ok { return true; }
      Restore(copy);
      return false;
    }

    method ParseCovariantThunk() returns (ok: bool)
      requires Valid()
      modifies this
      ensures Parsed(ok) && Lands(ok, old(Along(Four(Lit("Tc"), Use(CallOffset), Use(CallOffset), Use(Encoding)))))
      decreases |mangled| - cur, 0
    {
      hide Margin, Rate, Sound, Restorable, AfterItem, AfterRule;
      FourItems(tables, Lit("Tc"), Use(CallOffset), Use(CallOffset), Use(Encoding), mangled, At(cur));
      var copy := Save();
      ok := ParseTwoChar("Tc");
      if ok { ok := ParseCallOffset(); }
      if ok { ok := ParseCallOffset(); }
      if ok { ok := ParseEncoding(); }
      if ok { return true; }
      Restore(copy);
      return false;
    }

    /** T, in one case an extra letter, a call-offset and an encoding */
    method ParseThunk(letter: bool) returns (ok: bool)
      requires Valid()
      modifies this
      ensures Parsed(ok) && Lands(ok, old(Along(
                if letter then Four(Chr('T'), Class("hv"), Use(CallOffset), Use(Encoding))
                else Three(Chr('T'), Use(CallOffset), Use(Encoding)))))
      decreases |mangled| - cur, 0
    {
      hide Margin, Rate, Sound, Restorable, AfterItem, AfterRule;
      if letter {
        FourItems(tables, Chr('T'), Class("hv"), Use(CallOffset), Use(Encoding), mangled, At(cur));
      } else {
        ThreeItems(tables, Chr('T'), Use(CallOffset), Use(Encoding), mangled, At(cur));
      }
      var copy := Save();
      ok := ParseChar('T');
      if ok && letter { ok := ParseCharClass("hv"); }
      if ok { ok := ParseCallOffset(); }
      if ok { ok := ParseEncoding(); }
      if ok { return true; }
      Restore(copy);
      return false;
    }

    /** A type that is parsed with append off. */
    method ParseSilentType() returns (ok: bool)
      requires Valid()
      modifies this
      ensures Parsed(ok) && Lands(ok, old(After(Use(Type))))
      decreases |mangled| - cur, 10
    {
      hide Margin, Rate, Sound, Restorable, AfterItem, AfterRule;
      var copy := Save();
      append := false;
      ok := ParseType();
      if ok {
        append := copy.append;
        return true;
      }
      Restore(copy);
      return false;
    }

    method ParseConstructionTable() returns (ok: bool)
      requires Valid()
      modifies this
      ensures Parsed(ok) && Lands(ok, old(Along(Five(Lit("TC"), Use(Type), Number, Chr('_'), Use(Type)))))
      decreases |mangled| - cur, 0
    {
      hide Margin, Rate, Sound, Restorable, AfterItem, AfterRule, ReadNumber;
      FiveItems(tables, Lit("TC"), Use(Type), Number, Chr('_'), Use(Type), mangled, At(cur));
      var copy := Save();
      ok := ParseTwoChar("TC");
      if ok { ok := ParseType(); }
      if ok { ok := ParseNumber(); }
      if ok { ok := ParseChar('_'); }
      if ok { ok := ParseSilentType(); }
      if ok { return true; }
      Restore(copy);
      return false;
    }

    method ParseAlias() returns (ok: bool)
      requires Valid()
      modifies this
      ensures Parsed(ok) && Lands(ok, old(Along(Two(Lit("GA"), Use(Encoding)))))
      decreases |mangled| - cur, 0
    {
      hide Margin, Rate, Sound, Restorable, AfterItem, AfterRule;
      TwoItems(tables, Lit("GA"), Use(Encoding), mangled, At(cur));
      var copy := Save();
      ok := ParseTwoChar("GA");
      if ok { ok := ParseEncoding(); }
      if ok { return true; }
      Restore(copy);
      return false;
    }

    /** special-name */
    method ParseSpecialName() returns (ok: bool)
      requires Valid()
      modifies this
      ensures Parsed(ok) && Lands(ok, old(After(Use(SpecialName))))
      decreases |mangled| - cur, 1
    {
      hide Margin, Rate, AfterItem, AfterRule, Sound, Restorable;
      SpecialNameWays(tables, mangled, cur);
      GnuSpecialNamesWays(tables, mangled, cur);
      ok := ParseSpecialType("VTIS");
      if !ok { ok := ParseCovariantThunk(); }
      if !ok { ok := ParseSpecialObject("GV"); }
      if !ok { ok := ParseThunk(false); }
      if !ok { ok := ParseConstructionTable(); }
      if !ok { ok := ParseSpecialType("FJ"); }
      if !ok { ok := ParseSpecialObject("GR"); }
      if !ok { ok := ParseAlias(); }
      if !ok { ok := ParseThunk(true); }
    }

    method ParseQualifiedType() returns (ok: bool)
      requires Valid()
      modifies this
      ensures Parsed(ok) && Lands(ok, old(Along(Two(Use(CVQualifiers), Use(Type)))))
      decreases |mangled| - cur, 0
    {
      hide Margin, Rate, Sound, Restorable, AfterItem, AfterRule;
      TwoItems(tables, Use(CVQualifiers), Use(Type), mangled, At(cur));
      var copy := Save();
      ok := ParseCVQualifiers();
      if ok { ok := ParseType(); }
      if ok { return true; }
      Restore(copy);
      return false;
    }

    method ParsePointerType() returns (ok: bool)
      requires Valid()
      modifies this
      ensures Parsed(ok) && Lands(ok, old(Along(Two(Class("PRCG"), Use(Type)))))
      decreases |mangled| - cur, 0
    {
      hide Margin, Rate, Sound, Restorable, AfterItem, AfterRule;
      TwoItems(tables, Class("PRCG"), Use(Type), mangled, At(cur));
      var copy := Save();
      ok := ParseCharClass("PRCG");
      if ok { ok := ParseType(); }
      if ok { return true; }
      Restore(copy);
      return false;
    }

    method ParseVendorType() returns (ok: bool)
      requires Valid()
      modifies this
      ensures Parsed(ok) && Lands(ok, old(Along(Three(Chr('U'), Use(SourceName), Use(Type)))))
      decreases |mangled| - cur, 0
    {
      hide Margin, Rate, Sound, Restorable, AfterItem, AfterRule;
      ThreeItems(tables, Chr('U'), Use(SourceName), Use(Type), mangled, At(cur));
      var copy := Save();
      ok := ParseChar('U');
      if ok { ok := AdvanceSourceName(); }
      if ok { ok := ParseType(); }
      if ok { return true; }
      Restore(copy);
      return false;
    }

    method ParseTemplateType() returns (ok: bool)
      requires Valid()
      modifies this
      ensures Parsed(ok) && Lands(ok, old(Along(Two(Use(TemplateTemplateParam), Use(TemplateArgs)))))
      decreases |mangled| - cur, 0
    {
      hide Margin, Rate, Sound, Restorable, AfterItem, AfterRule;
      TwoItems(tables, Use(TemplateTemplateParam), Use(TemplateArgs), mangled, At(cur));
      var copy := Save();
      ok := ParseTemplateTemplateParam();
      if ok { ok := ParseTemplateArgs(); }
      if ok { return true; }
      Restore(copy);
      return false;
    }

    /** type: the alternatives from builtin-type on */
    method ParsePlainType() returns (ok: bool)
      requires Valid()
      modifies this
      ensures Parsed(ok) && Lands(ok, old(Along(PlainTypes())))
      decreases |mangled| - cur, 7, 0
    {
      hide Margin, Rate, AfterItem, AfterRule, Sound, Restorable;
      PlainTypesWays(tables, mangled, cur);
      ParameterTypesWays(tables, mangled, cur);
      ok := ParseBuiltinType();
      if !ok { ok := ParseFunctionType(); }
      if !ok { ok := ParseClassEnumType(); }
      if !ok { ok := ParseArrayType(); }
      if !ok { ok := ParsePointerToMemberType(); }
      if !ok { ok := ParseSubstitution(); }
      if !ok { ok := ParseTemplateType(); }
      if !ok { ok := ParseTemplateParam(); }
    }

    /** type */
    method ParseType() returns (ok: bool)
      requires Valid()
      modifies this
      ensures Parsed(ok) && Lands(ok, old(After(Use(Type))))
      decreases |mangled| - cur, 7
    {
      hide Margin, Rate, AfterItem, AfterRule, Sound, Restorable;
      TypeWays(tables, mangled, cur);
      ok := ParseQualifiedType();
      if !ok { ok := ParsePointerType(); }
      if !ok { ok := ParseVendorType(); }
      if !ok { ok := ParsePlainType(); }
    }

    /** function-type */
    method ParseFunctionType() returns (ok: bool)
      requires Valid()
      modifies this
      ensures Parsed(ok) && Lands(ok, old(After(Use(FunctionType))))
      decreases |mangled| - cur, 0
    {
      hide Margin, Rate, Sound, Restorable, AfterItem, AfterRule;
      FunctionTypeItems(tables, mangled, cur);
      var copy := Save();
      ok := ParseChar('F');
      if ok {
        MaybeItem(tables, Chr('Y'), mangled, cur);
        var externC := ParseChar('Y');
        ok := ParseBareFunctionType();
      }
      if ok { ok := ParseChar('E'); }
      if ok { return true; }
      Restore(copy);
      return false;
    }

    /** OneOrMore(ParseType) */
    method OneOrMoreTypes() returns (ok: bool)
      requires Valid()
      modifies this
      ensures Parsed(ok) && Lands(ok, old(After(Many(Type))))
      decreases |mangled| - cur, 8
    {
      hide Margin, Rate, Sound, Restorable, AfterItem;
      ManyItem(tables, Type, mangled, cur);
      ok := ParseType();
      if ok {
        while true
          invariant Roomy(0, 4)
          invariant Printed() && Valid() && nestLevel == old(nestLevel) && old(cur) < cur
          invariant old(After(Many(Type))) == After(Maybe(Many(Type)))
          decreases |mangled| - cur
        {
          ManyItem(tables, Type, mangled, cur);
          var more := ParseType();
          if !more {
            break;
          }
        }
        return true;
      }
      return false;
    }

    /** bare-function-type: the parameters are not printed */
    method ParseBareFunctionType() returns (ok: bool)
      requires Valid()
      modifies this
      ensures Parsed(ok) && Lands(ok, old(After(Use(BareFunctionType))))
      decreases |mangled| - cur, 9
    {
      hide Margin, Rate, Sound, Restorable, AfterItem, AfterRule;
      BareFunctionTypeItems(tables, mangled, cur);
      var copy := Save();
      append := false;
      ok := OneOrMoreTypes();
      if ok {
        append := copy.append;
        MaybeAppend('(', 2);
        Paid(3);
        return true;
      }
      Restore(copy);
      return false;
    }

    /** class-enum-type */
    method ParseClassEnumType() returns (ok: bool)
      requires Valid()
      modifies this
      ensures Parsed(ok) && Lands(ok, old(After(Use(ClassEnumType))))
      decreases |mangled| - cur, 6
    {
      hide Margin, Rate, AfterItem;
      ClassEnumTypeItems(tables, mangled, cur);
      ok := ParseName();
    }

    method ParseSizedArray() returns (ok: bool)
      requires Valid()
      modifies this
      ensures Parsed(ok) && Lands(ok, old(Along(Four(Chr('A'), Number, Chr('_'), Use(Type)))))
      decreases |mangled| - cur, 0
    {
      hide Margin, Rate, Sound, Restorable, AfterItem, AfterRule, ReadNumber;
      FourItems(tables, Chr('A'), Number, Chr('_'), Use(Type), mangled, At(cur));
      var copy := Save();
      ok := ParseChar('A');
      if ok { ok := ParseNumber(); }
      if ok { ok := ParseChar('_'); }
      if ok { ok := ParseType(); }
      if ok { return true; }
      Restore(copy);
      return false;
    }

    method ParseUnsizedArray() returns (ok: bool)
      requires Valid()
      modifies this
      ensures Parsed(ok) && Lands(ok, old(Along(Four(Chr('A'), Maybe(Use(Expression)), Chr('_'), Use(Type)))))
      decreases |mangled| - cur, 0
    {
      hide Margin, Rate, Sound, Restorable, AfterItem, AfterRule;
      FourItems(tables, Chr('A'), Maybe(Use(Expression)), Chr('_'), Use(Type), mangled, At(cur));
      var copy := Save();
      ok := ParseChar('A');
      if ok {
        MaybeItem(tables, Use(Expression), mangled, cur);
        var dimension := ParseExpression();
        ok := ParseChar('_');
      }
      if ok { ok := ParseType(); }
      if ok { return true; }
      Restore(copy);
      return false;
    }

    /** array-type */
    method ParseArrayType() returns (ok: bool)
      requires Valid()
      modifies this
      ensures Parsed(ok) && Lands(ok, old(After(Use(ArrayType))))
      decreases |mangled| - cur, 1
    {
      hide Margin, Rate, AfterItem, AfterRule;
      ArrayTypeWays(tables, mangled, cur);
      ok := ParseSizedArray();
      if !ok { ok := ParseUnsizedArray(); }
    }

    /** pointer-to-member-type */
    method ParsePointerToMemberType() returns (ok: bool)
      requires Valid()
      modifies this
      ensures Parsed(ok) && Lands(ok, old(After(Use(PointerToMemberType))))
      decreases |mangled| - cur, 0
    {
      hide Margin, Rate, Sound, Restorable, AfterItem, AfterRule;
      PointerToMemberTypeItems(tables, mangled, cur);
      var copy := Save();
      ok := ParseChar('M');
      if ok { ok := ParseType(); }
      if ok { ok := ParseType(); }
      if ok { return true; }
      Restore(copy);
      return false;
    }

    /** template-args: the arguments are not printed */
    method ParseTemplateArgs() returns (ok: bool)
      requires Valid()
      modifies this
      ensures Parsed(ok) && Lands(ok, old(After(Use(TemplateArgs))))
      decreases |mangled| - cur, 0
    {
      hide Margin, Rate, Sound, Restorable, AfterItem, AfterRule;
      TemplateArgsItems(tables, mangled, cur);
      var copy := Save();
      append := false;
      ok := ParseChar('I');
      if ok { ok := OneOrMoreTemplateArgs(); }
      if ok { ok := ParseChar('E'); }
      if ok {
        append := copy.append;
        MaybeAppend('<', 2);
        Paid(3);
        return true;
      }
      Restore(copy);
      return false;
    }

    /** OneOrMore(ParseTemplateArg) */
    method OneOrMoreTemplateArgs() returns (ok: bool)
      requires Valid()
      modifies this
      ensures Parsed(ok) && Lands(ok, old(After(Many(TemplateArg))))
      decreases |mangled| - cur, 9
    {
      hide Margin, Rate, Sound, Restorable, AfterItem;
      ManyItem(tables, TemplateArg, mangled, cur);
      ok := ParseTemplateArg();
      if ok {
        while true
          invariant Roomy(0, 4)
          invariant Printed() && Valid() && nestLevel == old(nestLevel) && old(cur) < cur
          invariant old(After(Many(TemplateArg))) == After(Maybe(Many(TemplateArg)))
          decreases |mangled| - cur
        {
          ManyItem(tables, TemplateArg, mangled, cur);
          var more := ParseTemplateArg();
          if !more {
            break;
          }
        }
        return true;
      }
      return false;
    }

    /** template-arg */
    method ParseTemplateArg() returns (ok: bool)
      requires Valid()
      modifies this
      ensures Parsed(ok) && Lands(ok, old(After(Use(TemplateArg))))
      decreases |mangled| - cur, 8
    {
      hide Margin, Rate, AfterItem, AfterRule;
      TemplateArgWays(tables, mangled, cur);
      ThreeItems(tables, Chr('X'), Use(Expression), Chr('E'), mangled, At(cur));
      ok := ParseType();
      if !ok { ok := ParseExprPrimary(); }
      if ok { return true; }
      var copy := Save();
      ok := ParseChar('X');
      if ok { ok := ParseExpression(); }
      if ok { ok := ParseChar('E'); }
      if ok { return true; }
      Restore(copy);
      return false;
    }

    function Operation(operands: nat): Rule {
      if operands >= 3 then Four(Use(OperatorName), Use(Expression), Use(Expression), Use(Expression))
      else if operands == 2 then Three(Use(OperatorName), Use(Expression), Use(Expression))
      else Two(Use(OperatorName), Use(Expression))
    }

    /** an operator-name with one to three expressions */
    method ParseOperation(operands: nat) returns (ok: bool)
      requires Valid()
      modifies this
      ensures Parsed(ok) && Lands(ok, old(Along(Operation(operands))))
      decreases |mangled| - cur, 2
    {
      hide Margin, Rate, Sound, Restorable, AfterItem, AfterRule;
      if operands >= 3 {
        FourItems(tables, Use(OperatorName), Use(Expression), Use(Expression), Use(Expression), mangled, At(cur));
      } else if operands == 2 {
        ThreeItems(tables, Use(OperatorName), Use(Expression), Use(Expression), mangled, At(cur));
      } else {
        TwoItems(tables, Use(OperatorName), Use(Expression), mangled, At(cur));
      }
      var copy := Save();
      ok := ParseOperatorName();
      if ok { ok := ParseExpression(); }
      if ok && operands >= 2 { ok := ParseExpression(); }
      if ok && operands >= 3 { ok := ParseExpression(); }
      if ok { return true; }
      Restore(copy);
      return false;
    }

    method ParseSizeof() returns (ok: bool)
      requires Valid()
      modifies this
      ensures Parsed(ok) && Lands(ok, old(Along(Two(Lit("st"), Use(Type)))))
      decreases |mangled| - cur, 0
    {
      hide Margin, Rate, Sound, Restorable, AfterItem, AfterRule;
      TwoItems(tables, Lit("st"), Use(Type), mangled, At(cur));
      var copy := Save();
      ok := ParseTwoChar("st");
      if ok { ok := ParseType(); }
      if ok { return true; }
      Restore(copy);
      return false;
    }

    method ParseScopedName(withArgs: bool) returns (ok: bool)
      requires Valid()
      modifies this
      ensures Parsed(ok) && Lands(ok, old(Along(
                if withArgs then Four(Lit("sr"), Use(Type), Use(UnqualifiedName), Use(TemplateArgs))
                else Three(Lit("sr"), Use(Type), Use(UnqualifiedName)))))
      decreases |mangled| - cur, 0
    {
      hide Margin, Rate, Sound, Restorable, AfterItem, AfterRule;
      if withArgs {
        FourItems(tables, Lit("sr"), Use(Type), Use(UnqualifiedName), Use(TemplateArgs), mangled, At(cur));
      } else {
        ThreeItems(tables, Lit("sr"), Use(Type), Use(UnqualifiedName), mangled, At(cur));
      }
      var copy := Save();
      ok := ParseTwoChar("sr");
      if ok { ok := ParseType(); }
      if ok { ok := ParseUnqualifiedName(); }
      if ok && withArgs { ok := ParseTemplateArgs(); }
      if ok { return true; }
      Restore(copy);
      return false;
    }

    /** expression */
    method ParseExpression() returns (ok: bool)
      requires Valid()
      modifies this
      ensures Parsed(ok) && Lands(ok, old(After(Use(Expression))))
      decreases |mangled| - cur, 3
    {
      hide Margin, Rate, AfterItem, AfterRule, Sound, Restorable;
      ExpressionWays(tables, mangled, cur);
      OperationsWays(tables, mangled, cur);
      ScopedNamesWays(tables, mangled, cur);
      ok := ParseTemplateParam();
      if !ok { ok := ParseExprPrimary(); }
      if !ok { ok := ParseOperation(3); }
      if !ok { ok := ParseOperation(2); }
      if !ok { ok := ParseOperation(1); }
      if !ok { ok := ParseSizeof(); }
      if !ok { ok := ParseScopedName(true); }
      if !ok { ok := ParseScopedName(false); }
    }

    /** L, a type and a value */
    method ParseLiteral(isFloat: bool) returns (ok: bool)
      requires Valid()
      modifies this
      ensures Parsed(ok) && Lands(ok,
          old(Along(Four(Chr('L'), Use(Type), if isFloat then FloatNumber else Number, Chr('E')))))
      decreases |mangled| - cur, 0
    {
      hide Margin, Rate, Sound, Restorable, AfterItem, AfterRule, ReadNumber;
      FourItems(tables, Chr('L'), Use(Type), if isFloat then FloatNumber else Number, Chr('E'), mangled, At(cur));
      var copy := Save();
      ok := ParseChar('L');
      if ok { ok := ParseType(); }
      if ok && isFloat { ok := ParseFloatNumber(); }
      if ok && !isFloat { ok := ParseNumber(); }
      if ok { ok := ParseChar('E'); }
      if ok { return true; }
      Restore(copy);
      return false;
    }

    method ParseExternalName() returns (ok: bool)
      requires Valid()
      modifies this
      ensures Parsed(ok) && Lands(ok, old(Along(Three(Chr('L'), Use(MangledName), Chr('E')))))
      decreases |mangled| - cur, 0
    {
      hide Margin, Rate, Sound, Restorable, AfterItem, AfterRule;
      ThreeItems(tables, Chr('L'), Use(MangledName), Chr('E'), mangled, At(cur));
      var copy := Save();
      ok := ParseChar('L');
      if ok { ok := ParseMangledName(); }
      if ok { ok := ParseChar('E'); }
      if ok { return true; }
      Restore(copy);
      return false;
    }

    /** LZ and an encoding, accepted for a bug of some compilers. */
    method ParseExternalEncoding() returns (ok: bool)
      requires Valid()
      modifies this
      ensures Parsed(ok) && Lands(ok, old(Along(Three(Lit("LZ"), Use(Encoding), Chr('E')))))
      decreases |mangled| - cur, 0
    {
      hide Margin, Rate, Sound, Restorable, AfterItem, AfterRule;
      ThreeItems(tables, Lit("LZ"), Use(Encoding), Chr('E'), mangled, At(cur));
      var copy := Save();
      ok := ParseTwoChar("LZ");
      if ok { ok := ParseEncoding(); }
      if ok { ok := ParseChar('E'); }
      if ok { return true; }
      Restore(copy);
      return false;
    }

    /** expr-primary */
    method ParseExprPrimary() returns (ok: bool)
      requires Valid()
      modifies this
      ensures Parsed(ok) && Lands(ok, old(After(Use(ExprPrimary))))
      decreases |mangled| - cur, 1
    {
      hide Margin, Rate, AfterItem, AfterRule;
      ExprPrimaryWays(tables, mangled, cur);
      ok := ParseLiteral(false);
      if !ok { ok := ParseLiteral(true); }
      if !ok { ok := ParseExternalName(); }
      if !ok { ok := ParseExternalEncoding(); }
    }

    /** Z, an encoding and E: the scope of a local entity */
    method ParseScope() returns (ok: bool)
      requires Valid()
      modifies this
      ensures Parsed(ok) && Lands(ok, old(Along(Three(Chr('Z'), Use(Encoding), Chr('E')))))
      decreases |mangled| - cur, 0, 0
    {
      hide Margin, Rate, Sound, Restorable, AfterItem, AfterRule;
      ThreeItems(tables, Chr('Z'), Use(Encoding), Chr('E'), mangled, At(cur));
      var copy := Save();
      ok := ParseChar('Z');
      if ok { ok := ParseEncoding(); }
      if ok { ok := ParseChar('E'); }
      if ok { return true; }
      Restore(copy);
      return false;
    }

    method ParseLocalEntity() returns (ok: bool)
      requires Valid()
      modifies this
      ensures Parsed(ok) && Lands(ok,
          old(Along(Five(Chr('Z'), Use(Encoding), Chr('E'), Use(Name), Maybe(Use(Discriminator))))))
      decreases |mangled| - cur, 0, 1
    {
      hide Margin, Rate, Sound, Restorable, AfterItem, AfterRule, Written, PrintedUpTo;
      FiveItems(tables, Chr('Z'), Use(Encoding), Chr('E'), Use(Name), Maybe(Use(Discriminator)), mangled, At(cur));
      ThreeItems(tables, Chr('Z'), Use(Encoding), Chr('E'), mangled, At(cur));
      var copy := Save();
      ok := ParseScope();
      if ok {
        MaybeAppend(':', 2);
        ok := ParseName();
      }
      if ok {
        MaybeItem(tables, Use(Discriminator), mangled, cur);
        var discriminator := ParseDiscriminator();
        return true;
      }
      Restore(copy);
      return false;
    }

    method ParseLocalString() returns (ok: bool)
      requires Valid()
      modifies this
      ensures Parsed(ok) && Lands(ok, old(Along(Four(Chr('Z'), Use(Encoding), Lit("Es"), Maybe(Use(Discriminator))))))
      decreases |mangled| - cur, 0
    {
      hide Margin, Rate, Sound, Restorable, AfterItem, AfterRule;
      FourItems(tables, Chr('Z'), Use(Encoding), Lit("Es"), Maybe(Use(Discriminator)), mangled, At(cur));
      var copy := Save();
      ok := ParseChar('Z');
      if ok { ok := ParseEncoding(); }
      if ok { ok := ParseTwoChar("Es"); }
      if ok {
        MaybeItem(tables, Use(Discriminator), mangled, cur);
        var discriminator := ParseDiscriminator();
        return true;
      }
      Restore(copy);
      return false;
    }

    /** local-name */
    method ParseLocalName() returns (ok: bool)
      requires Valid()
      modifies this
      ensures Parsed(ok) && Lands(ok, old(After(Use(LocalName))))
      decreases |mangled| - cur, 1
    {
      hide Margin, Rate, AfterItem, AfterRule;
      LocalNameWays(tables, mangled, cur);
      ok := ParseLocalEntity();
      if !ok { ok := ParseLocalString(); }
    }

    // ---------- where the code does not terminate ----------

    /** One round of ParsePrefix at a source-name that ends where it starts: accepted, and back at the same place. */
    method PrefixRound() returns (ok: bool)
      requires Valid() && SourceNameEnd(mangled, cur) == At(cur)
      modifies this
      ensures ok && Valid() && cur == old(cur)
    {
      hide Margin, Rate, AfterItem, AfterRule, Restorable, Written, LengthsUpTo, StillAmong;
      StillStart(mangled, cur);
      MaybeAppendSeparator();
      ok := ParseTemplateParam();
      if !ok { ok := ParseSubstitution(); }
      if !ok { ok := ParseOperatorName(); }
      if !ok { ok := ParseCtorDtorName(); }
      if !ok { ok := ParseSourceName(); }
      if ok {
        MaybeIncreaseNestLevel();
      }
    }

    /** After any number of rounds the loop of ParsePrefix has not moved: it never ends. */
    method PrefixRounds(rounds: nat)
      requires Valid() && SourceNameEnd(mangled, cur) == At(cur)
      modifies this
      ensures Valid() && cur == old(cur)
    {
      for r := 0 to rounds
        invariant Valid() && cur == old(cur)
      {
        var ok := PrefixRound();
      }
    }
  }

  /**
   The entry point: exactly the text that the grammar reads to its end is accepted if it is
   printed without an overflow, and there is none if the buffer has room for the longest
   name and the longest text of a table, again for every character.
   */
  method Demangle(mangled: string, outSize: nat, tables: Tables, ghost longest: nat) returns (ok: bool, state: State)
    requires '\0' !in mangled && '\0' !in tables.builtins && '\0' !in tables.substitutions && LengthsUpTo(tables, longest)
    ensures fresh(state) && state.Valid() && state.append && state.nestLevel == -1
    ensures (state.stopped <==> StillAmong(mangled, state.read)) && (NoNegativeLength(mangled) ==> !state.stopped)
    ensures ok <==> End(tables, MangledName, mangled, 0) == At(|mangled|) && !state.overflowed
    ensures (|mangled| + longest + 61) * |mangled| < outSize ==>
              (ok <==> End(tables, MangledName, mangled, 0) == At(|mangled|))
    ensures ok ==> state.cur == |mangled| && Derives(tables, RuleOf(MangledName), mangled, 0, |mangled|)
  {
    hide RuleOf;
    state := new State(mangled, outSize, tables, longest);
    ok := state.ParseMangledName();
    ok := ok && !state.overflowed && state.cur == |mangled|;
    if ok {
      EndDerives(tables, MangledName, mangled, 0);
    }
    if NoNegativeLength(mangled) {
      NothingStill(mangled, state.read);
    }
  }

  /** "_ZNn2" takes the code into ParsePrefix at its fourth character, and there it stays. */
  method EndlessName(rounds: nat, outSize: nat, tables: Tables, ghost longest: nat)
    returns (state: State)
    requires '\0' !in tables.builtins && '\0' !in tables.substitutions && LengthsUpTo(tables, longest)
    ensures fresh(state) && state.mangled == "_ZNn2" && state.cur == 3
  {
    hide SourceNameEnd, StandsStill, StillAmong, AfterItem, AfterRule, LengthsUpTo;
    var name := "_ZNn2";
    assert name == "_ZN" + "n2";
    N2StandsStill("_ZN");
    state := new State(name, outSize, tables, longest);
    // ParseMangledName, ParseEncoding, ParseName and ParseNestedName, up to ParsePrefix
    var z := state.ParseTwoChar("_Z");
    var n := state.ParseChar('N');
    state.nestLevel := 0;
    var qualified := state.ParseCVQualifiers();
    state.PrefixRounds(rounds);
  }
}
