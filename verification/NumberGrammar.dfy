/** What check_number takes for a number, said without its automaton. */
module NumberGrammar {
  import opened Wrappers
  import opened JsonLexers

  predicate IsSign(c: char) { c == '-' || c == '+' }

  predicate IsExponent(c: char) { c == 'e' || c == 'E' }

  // The digits that the grammar speaks of.
  lemma DigitsAre(c: char, hex: bool)
    ensures IsNumberDigit(c, hex) <==> c in "0123456789" || (hex && c in "abcdefABCDEF")
  {
    if IsNumberDigit(c, false) {
      assert "0123456789"[c as int - '0' as int] == c;
    } else if IsNumberDigit(c, hex) {
      assert c >= 'a' ==> "abcdefABCDEF"[c as int - 'a' as int] == c;
      assert c < 'a' ==> "abcdefABCDEF"[6 + (c as int - 'A' as int)] == c;
    }
  }

  // The characters from a up to b are digits and at most one dot, with at least one digit.
  predicate Mantissa(s: string, a: nat, b: nat, hex: bool)
    requires a <= b <= |s|
  {
    && (forall i :: a <= i < b ==> IsNumberDigit(s[i], hex) || s[i] == '.')
    && (forall i, j :: a <= i < j < b ==> !(s[i] == '.' && s[j] == '.'))
    && (exists i :: a <= i < b && IsNumberDigit(s[i], hex))
  }

  // Digits and at most one sign, anywhere but at the end.
  predicate Power(s: string, a: nat, b: nat)
    requires a <= b <= |s|
  {
    PowerPart(s, a, b) && a < b && IsNumberDigit(s[b - 1], false)
  }

  predicate PowerPart(s: string, a: nat, b: nat)
    requires a <= b <= |s|
  {
    && (forall i :: a <= i < b ==> IsNumberDigit(s[i], false) || IsSign(s[i]))
    && (forall i, j :: a <= i < j < b ==> !(IsSign(s[i]) && IsSign(s[j])))
  }

  predicate Hexadecimal(s: string, a: nat, n: nat)
    requires a <= n <= |s|
  {
    a + 2 < n && s[a] == '0' && (s[a + 1] == 'x' || s[a + 1] == 'X') && Mantissa(s, a + 2, n, true)
  }

  // The exponent begins at k. A single 0 takes none.
  predicate ScientificAt(s: string, a: nat, k: nat, n: nat)
    requires a <= n <= |s|
  {
    a < k < n && IsExponent(s[k]) && !(k == a + 1 && s[a] == '0') && Mantissa(s, a, k, false) && Power(s, k + 1, n)
  }

  predicate Unsigned(s: string, a: nat, n: nat)
    requires a <= n <= |s|
  {
    Mantissa(s, a, n, false) || Hexadecimal(s, a, n) || exists k :: a < k < n && ScientificAt(s, a, k, n)
  }

  // Where the digits begin.
  function Begin(s: string): nat {
    if s != "" && IsSign(s[0]) then 1 else 0
  }

  /** The first n characters are a number: an optional sign; digits with at most one dot, or such
      digits in base 16 behind 0x; and behind decimal ones, other than a single 0, optionally an
      exponent, which may have a sign even between its digits. */
  predicate IsNumberText(s: string, n: nat)
    requires n <= |s|
  {
    Begin(s) < n && Unsigned(s, Begin(s), n)
  }

  // ---------------------------------------------------------------- what the states stand for

  predicate HasDot(s: string, a: nat, b: nat)
    requires a <= b <= |s|
  {
    exists i :: a <= i < b && s[i] == '.'
  }

  predicate HasSign(s: string, a: nat, b: nat)
    requires a <= b <= |s|
  {
    exists i :: a <= i < b && IsSign(s[i])
  }

  /** The automaton has read s up to i; in the last two states the exponent began at k. */
  predicate Stands(s: string, i: nat, v: Numbering, k: nat)
    requires i <= |s|
  {
    var a := Begin(s);
    if v.state == 0 then i == 0 && v == NUMBER_START
    else if v.state == 1 then i == 1 == a && v == NUMBER_START.(state := 1)
    else
      && a < i
      && if v.state == 2 then i == a + 1 && s[a] == '0' && v == Numbering(2, false, false, i)
         else if v.state == 3 && !v.hex then i == a + 1 && s[a] == '.' && v == Numbering(3, false, true, 0)
         else if v.state == 3 then
           && a + 2 <= i && s[a] == '0' && (s[a + 1] == 'x' || s[a + 1] == 'X') && v.end < i
           && i == (if v.dot then a + 3 else a + 2) && (v.dot ==> s[a + 2] == '.')
         else if v.state == 4 then
           && v.end == i
           && if v.hex then Hexadecimal(s, a, i) && v.dot == HasDot(s, a + 2, i)
              else Mantissa(s, a, i, false) && !(i == a + 1 && s[a] == '0') && v.dot == HasDot(s, a, i)
         else
           && (v.state == 5 || v.state == 6) && !v.hex
           && a < k < i && IsExponent(s[k]) && !(k == a + 1 && s[a] == '0') && Mantissa(s, a, k, false)
           && PowerPart(s, k + 1, i) && (v.state == 6 <==> HasSign(s, k + 1, i)) && (v.end == i <==> Power(s, k + 1, i))
  }

  // One more character of a mantissa or of an exponent.
  lemma MantissaGrows(s: string, a: nat, i: nat, hex: bool)
    requires a <= i < |s| && (IsNumberDigit(s[i], hex) || s[i] == '.')
    ensures HasDot(s, a, i + 1) <==> HasDot(s, a, i) || s[i] == '.'
    ensures Mantissa(s, a, i, hex) && !(s[i] == '.' && HasDot(s, a, i)) ==> Mantissa(s, a, i + 1, hex)
  {
    if HasDot(s, a, i) { var j :| a <= j < i && s[j] == '.'; assert s[j] == '.'; }
    if Mantissa(s, a, i, hex) { var j :| a <= j < i && IsNumberDigit(s[j], hex); assert IsNumberDigit(s[j], hex); }
  }

  lemma PowerGrows(s: string, a: nat, i: nat)
    requires a <= i < |s| && PowerPart(s, a, i) && (IsNumberDigit(s[i], false) || (IsSign(s[i]) && !HasSign(s, a, i)))
    ensures PowerPart(s, a, i + 1) && (HasSign(s, a, i + 1) <==> HasSign(s, a, i) || IsSign(s[i]))
    ensures Power(s, a, i + 1) <==> IsNumberDigit(s[i], false)
  {
    if HasSign(s, a, i) { var j :| a <= j < i && IsSign(s[j]); assert IsSign(s[j]); }
  }

  lemma StandsEarly(s: string, i: nat, v: Numbering, k: nat)
    requires i < |s| && v.end <= i && Stands(s, i, v, k) && v.state < 4 && NumberStep(v, s[i], i).Some?
    ensures Stands(s, i + 1, NumberStep(v, s[i], i).value, k)
  {
    var a := Begin(s);
    if v.state == 3 && v.hex && i == a + 3 { assert s[a + 2] == '.'; }
    if IsNumberDigit(s[i], v.hex) { assert IsNumberDigit(s[i], v.hex); }
  }

  lemma StandsInMantissa(s: string, i: nat, v: Numbering, k: nat) returns (k': nat)
    requires i < |s| && v.end <= i && Stands(s, i, v, k) && v.state == 4 && NumberStep(v, s[i], i).Some?
    ensures Stands(s, i + 1, NumberStep(v, s[i], i).value, k')
  {
    k' := k;
    var a := if v.hex then Begin(s) + 2 else Begin(s);
    if IsNumberDigit(s[i], v.hex) || s[i] == '.' {
      MantissaGrows(s, a, i, v.hex);
    } else {
      k' := i;
    }
  }

  lemma StandsInPower(s: string, i: nat, v: Numbering, k: nat)
    requires i < |s| && v.end <= i && Stands(s, i, v, k) && v.state > 4 && NumberStep(v, s[i], i).Some?
    ensures Stands(s, i + 1, NumberStep(v, s[i], i).value, k)
  {
    PowerGrows(s, k + 1, i);
  }

  lemma StandsNext(s: string, i: nat, v: Numbering, k: nat) returns (k': nat)
    requires i < |s| && v.end <= i && NumberStep(v, s[i], i).Some?
    ensures Stands(s, i, v, k) ==> Stands(s, i + 1, NumberStep(v, s[i], i).value, k')
  {
    k' := k;
    if !Stands(s, i, v, k) {
      return;
    }
    if v.state < 4 {
      StandsEarly(s, i, v, k);
    } else if v.state == 4 {
      k' := StandsInMantissa(s, i, v, k);
    } else {
      StandsInPower(s, i, v, k);
    }
  }

  // In every state the end mark is where the text is a number.
  lemma MarkIsNumber(s: string, i: nat, v: Numbering, k: nat)
    requires 0 < i <= |s| && v.end <= i
    ensures Stands(s, i, v, k) ==> (v.end == i <==> IsNumberText(s, i))
  {
    var a := Begin(s);
    if Stands(s, i, v, k) {
      if v.state == 2 { assert IsNumberDigit(s[a], false); }
      if v.state > 4 && v.end == i { assert ScientificAt(s, a, k, i); }
    }
  }

  // Where the automaton stops, no number goes on.
  lemma StopsForGood(s: string, i: nat, v: Numbering, k: nat, n: nat)
    requires i < n <= |s| && v.end <= i && NumberStep(v, s[i], i).None?
    ensures Stands(s, i, v, k) ==> !IsNumberText(s, n)
  {
  }

  // ---------------------------------------------------------------- the whole run

  // The end mark of the run from i on is a number, if it has moved.
  lemma {:induction false} RunMarks(s: string, i: nat, v: Numbering, k: nat)
    requires i <= |s| && v.end <= i
    ensures Stands(s, i, v, k) ==>
              var w := NumberRun(s, i, v).1; w.end == v.end || (i < w.end <= |s| && IsNumberText(s, w.end))
    decreases |s| - i
  {
    if i < |s| && Stands(s, i, v, k) && NumberStep(v, s[i], i).Some? {
      var next := NumberStep(v, s[i], i).value;
      var k1 := StandsNext(s, i, v, k);
      MarkIsNumber(s, i + 1, next, k1);
      RunMarks(s, i + 1, next, k1);
    }
  }

  // It reaches every number behind i.
  lemma {:induction false} RunReaches(s: string, i: nat, v: Numbering, k: nat, n: nat)
    requires i < n <= |s| && v.end <= i && IsNumberText(s, n)
    ensures Stands(s, i, v, k) ==> n <= NumberRun(s, i, v).1.end
    decreases |s| - i
  {
    if Stands(s, i, v, k) {
      if NumberStep(v, s[i], i).None? {
        StopsForGood(s, i, v, k, n);
      } else {
        var next := NumberStep(v, s[i], i).value;
        var k1 := StandsNext(s, i, v, k);
        if n == i + 1 {
          MarkIsNumber(s, n, next, k1);
          RunKeepsMark(s, n, next);
        } else {
          RunReaches(s, i + 1, next, k1, n);
        }
      }
    }
  }

  lemma {:induction false} RunKeepsMark(s: string, i: nat, v: Numbering)
    requires i <= |s| && v.end <= i
    ensures v.end <= NumberRun(s, i, v).1.end
    decreases |s| - i
  {
    if i < |s| && NumberStep(v, s[i], i).Some? { RunKeepsMark(s, i + 1, NumberStep(v, s[i], i).value); }
  }

  // So its end mark is the length of the longest number at the front, or 0.
  lemma MarkIsLongest(s: string)
    ensures var e := NumberRun(s, 0, NUMBER_START).1.end;
            && (e == 0 || (e <= |s| && IsNumberText(s, e)))
            && forall n :: 0 < n <= |s| && IsNumberText(s, n) ==> n <= e
  {
    RunMarks(s, 0, NUMBER_START, 0);
    forall n | 0 < n <= |s| && IsNumberText(s, n)
      ensures n <= NumberRun(s, 0, NUMBER_START).1.end
    {
      RunReaches(s, 0, NUMBER_START, 0, n);
    }
  }

  lemma ReadToItsEnd(s: string)
    requires s != "" && NumberRun(s, 0, NUMBER_START).1.end == |s|
    ensures IsNumberText(s, |s|)
  {
    MarkIsLongest(s);
  }

  // A digit behind is read after anything the automaton has read to its end.
  lemma {:induction false} RunOnDigit(s: string, t: string, i: nat, v: Numbering)
    requires i <= |s| && v.end <= i && v.state <= 6 && t == s + "1" && NumberRun(s, i, v).0 == |s|
    ensures NumberRun(t, i, v).0 == |t| == NumberRun(t, i, v).1.end
    decreases |s| - i
  {
    assert t[i] == if i < |s| then s[i] else '1';
    if i < |s| { RunOnDigit(s, t, i + 1, NumberStep(v, s[i], i).value); }
  }

  lemma {:induction false} RunInLonger(s: string, t: string, i: nat, v: Numbering)
    requires i <= |s| < |t| && v.end <= i && forall j :: 0 <= j < |s| ==> t[j] == s[j]
    requires NumberRun(s, i, v).0 < |s|
    ensures NumberRun(t, i, v) == NumberRun(s, i, v)
    decreases |s| - i
  {
    if NumberStep(v, s[i], i).Some? { RunInLonger(s, t, i + 1, NumberStep(v, s[i], i).value); }
  }

  /** check_number in stream mode: undecided exactly while a further digit would make the whole
      text a number; otherwise it takes the longest prefix that is a number, or none is one. */
  lemma LexNumberMeans(s: string)
    ensures LexNumber(s).Undecided? <==> IsNumberText(s + "1", |s| + 1)
    ensures match LexNumber(s)
            case Undecided => true
            case Taken(n) => 0 < n <= |s| && IsNumberText(s, n) && forall m :: n < m <= |s| ==> !IsNumberText(s, m)
            case Mismatch => forall m :: 0 < m <= |s| ==> !IsNumberText(s, m)
  {
    var t := s + "1";
    MarkIsLongest(s);
    MarkIsLongest(t);
    if NumberRun(s, 0, NUMBER_START).0 == |s| {
      RunOnDigit(s, t, 0, NUMBER_START);
    } else {
      RunInLonger(s, t, 0, NUMBER_START);
    }
  }
}
