/** The three messages `generate_html` raises when a response cannot be
    cut down to its `<article>` fragment, and the fact that the classifier
    sees none of its patterns in them.

    A pattern is ruled out by a character, or an adjacent pair, that the
    lower-cased message lacks. Each such fact is proved for one character at
    a time because a single scan over the whole literal is too costly for
    the solver; the lemmas are mechanical and differ only in the character. */
module ExtractionMessages {
  import opened Text
  import opened ApiErrors

  const EmptyResponseMessage: string := "API zwróciło pustą odpowiedź"
  const MissingOpenMessage: string := "Nie znaleziono tagu <article> w odpowiedzi API"
  const MissingCloseMessage: string := "Nie znaleziono zamykającego tagu </article> w odpowiedzi API"

  lemma EmptyResponseIsUnknownSplit()
    ensures EmptyResponseMessage == "API zwróciło " + "pustą odpowiedź"
  {
  }

  /** Characters and adjacent pairs the lower-cased message lacks. */
  lemma EmptyResponseIsUnknownLacks(s: string)
    requires s == Lower(EmptyResponseMessage)
    ensures Lacks(s, 'l')
    ensures Lacks(s, 'm')
    ensures Lacks(s, 'n')
    ensures Lacks(s, 'h')
    ensures Lacks(s, 'v')
  {
    EmptyResponseIsUnknownLacks0(s);
    EmptyResponseIsUnknownLacks1(s);
    EmptyResponseIsUnknownLacks2(s);
    EmptyResponseIsUnknownLacks3(s);
    EmptyResponseIsUnknownLacks4(s);
  }

  lemma EmptyResponseIsUnknownLacks0(s: string)
    requires s == Lower(EmptyResponseMessage)
    ensures Lacks(s, 'l')
  {
    var a, b := "API zwróciło ", "pustą odpowiedź";
    EmptyResponseIsUnknownSplit();
    LowerAppend(a, b);
    assert Lacks(Lower(a), 'l');
    assert Lacks(Lower(b), 'l');
    LacksAppend(Lower(a), Lower(b), 'l');
  }

  lemma EmptyResponseIsUnknownLacks1(s: string)
    requires s == Lower(EmptyResponseMessage)
    ensures Lacks(s, 'm')
  {
    var a, b := "API zwróciło ", "pustą odpowiedź";
    EmptyResponseIsUnknownSplit();
    LowerAppend(a, b);
    assert Lacks(Lower(a), 'm');
    assert Lacks(Lower(b), 'm');
    LacksAppend(Lower(a), Lower(b), 'm');
  }

  lemma EmptyResponseIsUnknownLacks2(s: string)
    requires s == Lower(EmptyResponseMessage)
    ensures Lacks(s, 'n')
  {
    var a, b := "API zwróciło ", "pustą odpowiedź";
    EmptyResponseIsUnknownSplit();
    LowerAppend(a, b);
    assert Lacks(Lower(a), 'n');
    assert Lacks(Lower(b), 'n');
    LacksAppend(Lower(a), Lower(b), 'n');
  }

  lemma EmptyResponseIsUnknownLacks3(s: string)
    requires s == Lower(EmptyResponseMessage)
    ensures Lacks(s, 'h')
  {
    var a, b := "API zwróciło ", "pustą odpowiedź";
    EmptyResponseIsUnknownSplit();
    LowerAppend(a, b);
    assert Lacks(Lower(a), 'h');
    assert Lacks(Lower(b), 'h');
    LacksAppend(Lower(a), Lower(b), 'h');
  }

  lemma EmptyResponseIsUnknownLacks4(s: string)
    requires s == Lower(EmptyResponseMessage)
    ensures Lacks(s, 'v')
  {
    var a, b := "API zwróciło ", "pustą odpowiedź";
    EmptyResponseIsUnknownSplit();
    LowerAppend(a, b);
    assert Lacks(Lower(a), 'v');
    assert Lacks(Lower(b), 'v');
    LacksAppend(Lower(a), Lower(b), 'v');
  }
  /** No error pattern occurs in a text lacking these characters. */
  lemma EmptyResponseIsUnknownPatterns0(s: string)
    requires Lacks(s, 'l')
    requires Lacks(s, 'm')
    requires Lacks(s, 'n')
    requires Lacks(s, 'h')
    requires Lacks(s, 'v')
    ensures !PatternMatches(s, 0)
    ensures !PatternMatches(s, 1)
    ensures !PatternMatches(s, 2)
    ensures !PatternMatches(s, 3)
    ensures !PatternMatches(s, 4)
    ensures !PatternMatches(s, 5)
  {
    AbsentCharExcludes(s, ErrorPatterns[0].0, 5);
    AbsentCharExcludes(s, ErrorPatterns[1].0, 4);
    AbsentCharExcludes(s, ErrorPatterns[2].0, 2);
    AbsentCharExcludes(s, ErrorPatterns[3].0, 0);
    AbsentCharExcludes(s, ErrorPatterns[4].0, 1);
    AbsentCharExcludes(s, ErrorPatterns[5].0, 1);
  }

  lemma EmptyResponseIsUnknownPatterns1(s: string)
    requires Lacks(s, 'l')
    requires Lacks(s, 'm')
    requires Lacks(s, 'n')
    requires Lacks(s, 'h')
    requires Lacks(s, 'v')
    ensures !PatternMatches(s, 6)
    ensures !PatternMatches(s, 7)
    ensures !PatternMatches(s, 8)
    ensures !PatternMatches(s, 9)
    ensures !PatternMatches(s, 10)
  {
    AbsentCharExcludes(s, ErrorPatterns[6].0, 3);
    AbsentCharExcludes(s, ErrorPatterns[7].0, 1);
    AbsentCharExcludes(s, ErrorPatterns[8].0, 3);
    AbsentCharExcludes(s, ErrorPatterns[9].0, 2);
    AbsentCharExcludes(s, ErrorPatterns[10].0, 4);
  }

  lemma EmptyResponseIsUnknownPatterns(s: string)
    requires Lacks(s, 'l')
    requires Lacks(s, 'm')
    requires Lacks(s, 'n')
    requires Lacks(s, 'h')
    requires Lacks(s, 'v')
    ensures !PatternMatches(s, 0)
    ensures !PatternMatches(s, 1)
    ensures !PatternMatches(s, 2)
    ensures !PatternMatches(s, 3)
    ensures !PatternMatches(s, 4)
    ensures !PatternMatches(s, 5)
    ensures !PatternMatches(s, 6)
    ensures !PatternMatches(s, 7)
    ensures !PatternMatches(s, 8)
    ensures !PatternMatches(s, 9)
    ensures !PatternMatches(s, 10)
  {
    EmptyResponseIsUnknownPatterns0(s);
    EmptyResponseIsUnknownPatterns1(s);
  }

  lemma EmptyResponseIsUnknown()
    ensures Classify(EmptyResponseMessage).kind == Unknown
  {
    var s := Lower(EmptyResponseMessage);
    EmptyResponseIsUnknownLacks(s);
    EmptyResponseIsUnknownPatterns(s);
    NoEntryMatches(Lower(EmptyResponseMessage));
  }

  lemma MissingOpenIsUnknownSplit()
    ensures MissingOpenMessage == "Nie znaleziono tagu " + "<article> w odpowiedzi API"
  {
  }

  /** Characters and adjacent pairs the lower-cased message lacks. */
  lemma MissingOpenIsUnknownLacks(s: string)
    requires s == Lower(MissingOpenMessage)
    ensures Lacks(s, 'm')
    ensures Lacks(s, 'x')
    ensures Lacks(s, 'v')
    ensures Lacks(s, 'h')
    ensures Lacks(s, 's')
  {
    MissingOpenIsUnknownLacks0(s);
    MissingOpenIsUnknownLacks1(s);
    MissingOpenIsUnknownLacks2(s);
    MissingOpenIsUnknownLacks3(s);
    MissingOpenIsUnknownLacks4(s);
  }

  lemma MissingOpenIsUnknownLacks0(s: string)
    requires s == Lower(MissingOpenMessage)
    ensures Lacks(s, 'm')
  {
    var a, b := "Nie znaleziono tagu ", "<article> w odpowiedzi API";
    MissingOpenIsUnknownSplit();
    LowerAppend(a, b);
    assert Lacks(Lower(a), 'm');
    assert Lacks(Lower(b), 'm');
    LacksAppend(Lower(a), Lower(b), 'm');
  }

  lemma MissingOpenIsUnknownLacks1(s: string)
    requires s == Lower(MissingOpenMessage)
    ensures Lacks(s, 'x')
  {
    var a, b := "Nie znaleziono tagu ", "<article> w odpowiedzi API";
    MissingOpenIsUnknownSplit();
    LowerAppend(a, b);
    assert Lacks(Lower(a), 'x');
    assert Lacks(Lower(b), 'x');
    LacksAppend(Lower(a), Lower(b), 'x');
  }

  lemma MissingOpenIsUnknownLacks2(s: string)
    requires s == Lower(MissingOpenMessage)
    ensures Lacks(s, 'v')
  {
    var a, b := "Nie znaleziono tagu ", "<article> w odpowiedzi API";
    MissingOpenIsUnknownSplit();
    LowerAppend(a, b);
    assert Lacks(Lower(a), 'v');
    assert Lacks(Lower(b), 'v');
    LacksAppend(Lower(a), Lower(b), 'v');
  }

  lemma MissingOpenIsUnknownLacks3(s: string)
    requires s == Lower(MissingOpenMessage)
    ensures Lacks(s, 'h')
  {
    var a, b := "Nie znaleziono tagu ", "<article> w odpowiedzi API";
    MissingOpenIsUnknownSplit();
    LowerAppend(a, b);
    assert Lacks(Lower(a), 'h');
    assert Lacks(Lower(b), 'h');
    LacksAppend(Lower(a), Lower(b), 'h');
  }

  lemma MissingOpenIsUnknownLacks4(s: string)
    requires s == Lower(MissingOpenMessage)
    ensures Lacks(s, 's')
  {
    var a, b := "Nie znaleziono tagu ", "<article> w odpowiedzi API";
    MissingOpenIsUnknownSplit();
    LowerAppend(a, b);
    assert Lacks(Lower(a), 's');
    assert Lacks(Lower(b), 's');
    LacksAppend(Lower(a), Lower(b), 's');
  }
  /** No error pattern occurs in a text lacking these characters. */
  lemma MissingOpenIsUnknownPatterns0(s: string)
    requires Lacks(s, 'm')
    requires Lacks(s, 'x')
    requires Lacks(s, 'v')
    requires Lacks(s, 'h')
    requires Lacks(s, 's')
    ensures !PatternMatches(s, 0)
    ensures !PatternMatches(s, 1)
    ensures !PatternMatches(s, 2)
    ensures !PatternMatches(s, 3)
    ensures !PatternMatches(s, 4)
    ensures !PatternMatches(s, 5)
  {
    AbsentCharExcludes(s, ErrorPatterns[0].0, 7);
    AbsentCharExcludes(s, ErrorPatterns[1].0, 4);
    AbsentCharExcludes(s, ErrorPatterns[2].0, 5);
    AbsentCharExcludes(s, ErrorPatterns[3].0, 0);
    AbsentCharExcludes(s, ErrorPatterns[4].0, 2);
    AbsentCharExcludes(s, ErrorPatterns[5].0, 5);
  }

  lemma MissingOpenIsUnknownPatterns1(s: string)
    requires Lacks(s, 'm')
    requires Lacks(s, 'x')
    requires Lacks(s, 'v')
    requires Lacks(s, 'h')
    requires Lacks(s, 's')
    ensures !PatternMatches(s, 6)
    ensures !PatternMatches(s, 7)
    ensures !PatternMatches(s, 8)
    ensures !PatternMatches(s, 9)
    ensures !PatternMatches(s, 10)
  {
    AbsentCharExcludes(s, ErrorPatterns[6].0, 3);
    AbsentCharExcludes(s, ErrorPatterns[7].0, 9);
    AbsentCharExcludes(s, ErrorPatterns[8].0, 0);
    AbsentCharExcludes(s, ErrorPatterns[9].0, 2);
    AbsentCharExcludes(s, ErrorPatterns[10].0, 10);
  }

  lemma MissingOpenIsUnknownPatterns(s: string)
    requires Lacks(s, 'm')
    requires Lacks(s, 'x')
    requires Lacks(s, 'v')
    requires Lacks(s, 'h')
    requires Lacks(s, 's')
    ensures !PatternMatches(s, 0)
    ensures !PatternMatches(s, 1)
    ensures !PatternMatches(s, 2)
    ensures !PatternMatches(s, 3)
    ensures !PatternMatches(s, 4)
    ensures !PatternMatches(s, 5)
    ensures !PatternMatches(s, 6)
    ensures !PatternMatches(s, 7)
    ensures !PatternMatches(s, 8)
    ensures !PatternMatches(s, 9)
    ensures !PatternMatches(s, 10)
  {
    MissingOpenIsUnknownPatterns0(s);
    MissingOpenIsUnknownPatterns1(s);
  }

  lemma MissingOpenIsUnknown()
    ensures Classify(MissingOpenMessage).kind == Unknown
  {
    var s := Lower(MissingOpenMessage);
    MissingOpenIsUnknownLacks(s);
    MissingOpenIsUnknownPatterns(s);
    NoEntryMatches(Lower(MissingOpenMessage));
  }

  lemma MissingCloseIsUnknownSplit()
    ensures MissingCloseMessage == "Nie znaleziono zamykającego " + "tagu </article> w odpowiedzi API"
  {
  }

  /** Characters and adjacent pairs the lower-cased message lacks. */
  lemma MissingCloseIsUnknownLacks(s: string)
    requires s == Lower(MissingCloseMessage)
    ensures Lacks(s, 'q')
    ensures Lacks(s, 'x')
    ensures Lacks(s, 'v')
    ensures Lacks(s, 'h')
    ensures Lacks(s, 's')
    ensures LacksPair(s, 'r', 'a')
    ensures LacksPair(s, 'i', 'm')
  {
    MissingCloseIsUnknownLacks0(s);
    MissingCloseIsUnknownLacks1(s);
    MissingCloseIsUnknownLacks2(s);
    MissingCloseIsUnknownLacks3(s);
    MissingCloseIsUnknownLacks4(s);
    MissingCloseIsUnknownLacks5(s);
    MissingCloseIsUnknownLacks6(s);
  }

  lemma MissingCloseIsUnknownLacks0(s: string)
    requires s == Lower(MissingCloseMessage)
    ensures Lacks(s, 'q')
  {
    var a, b := "Nie znaleziono zamykającego ", "tagu </article> w odpowiedzi API";
    MissingCloseIsUnknownSplit();
    LowerAppend(a, b);
    assert Lacks(Lower(a), 'q');
    assert Lacks(Lower(b), 'q');
    LacksAppend(Lower(a), Lower(b), 'q');
  }

  lemma MissingCloseIsUnknownLacks1(s: string)
    requires s == Lower(MissingCloseMessage)
    ensures Lacks(s, 'x')
  {
    var a, b := "Nie znaleziono zamykającego ", "tagu </article> w odpowiedzi API";
    MissingCloseIsUnknownSplit();
    LowerAppend(a, b);
    assert Lacks(Lower(a), 'x');
    assert Lacks(Lower(b), 'x');
    LacksAppend(Lower(a), Lower(b), 'x');
  }

  lemma MissingCloseIsUnknownLacks2(s: string)
    requires s == Lower(MissingCloseMessage)
    ensures Lacks(s, 'v')
  {
    var a, b := "Nie znaleziono zamykającego ", "tagu </article> w odpowiedzi API";
    MissingCloseIsUnknownSplit();
    LowerAppend(a, b);
    assert Lacks(Lower(a), 'v');
    assert Lacks(Lower(b), 'v');
    LacksAppend(Lower(a), Lower(b), 'v');
  }

  lemma MissingCloseIsUnknownLacks3(s: string)
    requires s == Lower(MissingCloseMessage)
    ensures Lacks(s, 'h')
  {
    var a, b := "Nie znaleziono zamykającego ", "tagu </article> w odpowiedzi API";
    MissingCloseIsUnknownSplit();
    LowerAppend(a, b);
    assert Lacks(Lower(a), 'h');
    assert Lacks(Lower(b), 'h');
    LacksAppend(Lower(a), Lower(b), 'h');
  }

  lemma MissingCloseIsUnknownLacks4(s: string)
    requires s == Lower(MissingCloseMessage)
    ensures Lacks(s, 's')
  {
    var a, b := "Nie znaleziono zamykającego ", "tagu </article> w odpowiedzi API";
    MissingCloseIsUnknownSplit();
    LowerAppend(a, b);
    assert Lacks(Lower(a), 's');
    assert Lacks(Lower(b), 's');
    LacksAppend(Lower(a), Lower(b), 's');
  }

  lemma MissingCloseIsUnknownLacks5(s: string)
    requires s == Lower(MissingCloseMessage)
    ensures LacksPair(s, 'r', 'a')
  {
    var a, b := "Nie znaleziono zamykającego ", "tagu </article> w odpowiedzi API";
    MissingCloseIsUnknownSplit();
    LowerAppend(a, b);
    assert LacksPair(Lower(a), 'r', 'a');
    assert LacksPair(Lower(b), 'r', 'a');
    LacksPairAppend(Lower(a), Lower(b), 'r', 'a');
  }

  lemma MissingCloseIsUnknownLacks6(s: string)
    requires s == Lower(MissingCloseMessage)
    ensures LacksPair(s, 'i', 'm')
  {
    var a, b := "Nie znaleziono zamykającego ", "tagu </article> w odpowiedzi API";
    MissingCloseIsUnknownSplit();
    LowerAppend(a, b);
    assert LacksPair(Lower(a), 'i', 'm');
    assert LacksPair(Lower(b), 'i', 'm');
    LacksPairAppend(Lower(a), Lower(b), 'i', 'm');
  }
  /** No error pattern occurs in a text lacking these characters. */
  lemma MissingCloseIsUnknownPatterns0(s: string)
    requires Lacks(s, 'q')
    requires Lacks(s, 'x')
    requires Lacks(s, 'v')
    requires Lacks(s, 'h')
    requires Lacks(s, 's')
    requires LacksPair(s, 'r', 'a')
    requires LacksPair(s, 'i', 'm')
    ensures !PatternMatches(s, 0)
    ensures !PatternMatches(s, 1)
    ensures !PatternMatches(s, 2)
    ensures !PatternMatches(s, 3)
    ensures !PatternMatches(s, 4)
    ensures !PatternMatches(s, 5)
  {
    AbsentPairExcludes(s, ErrorPatterns[0].0, 0);
    AbsentCharExcludes(s, ErrorPatterns[1].0, 11);
    AbsentCharExcludes(s, ErrorPatterns[2].0, 5);
    AbsentCharExcludes(s, ErrorPatterns[3].0, 2);
    AbsentCharExcludes(s, ErrorPatterns[4].0, 2);
    AbsentCharExcludes(s, ErrorPatterns[5].0, 5);
  }

  lemma MissingCloseIsUnknownPatterns1(s: string)
    requires Lacks(s, 'q')
    requires Lacks(s, 'x')
    requires Lacks(s, 'v')
    requires Lacks(s, 'h')
    requires Lacks(s, 's')
    requires LacksPair(s, 'r', 'a')
    requires LacksPair(s, 'i', 'm')
    ensures !PatternMatches(s, 6)
    ensures !PatternMatches(s, 7)
    ensures !PatternMatches(s, 8)
    ensures !PatternMatches(s, 9)
    ensures !PatternMatches(s, 10)
  {
    AbsentCharExcludes(s, ErrorPatterns[6].0, 3);
    AbsentCharExcludes(s, ErrorPatterns[7].0, 9);
    AbsentCharExcludes(s, ErrorPatterns[8].0, 0);
    AbsentPairExcludes(s, ErrorPatterns[9].0, 1);
    AbsentCharExcludes(s, ErrorPatterns[10].0, 10);
  }

  lemma MissingCloseIsUnknownPatterns(s: string)
    requires Lacks(s, 'q')
    requires Lacks(s, 'x')
    requires Lacks(s, 'v')
    requires Lacks(s, 'h')
    requires Lacks(s, 's')
    requires LacksPair(s, 'r', 'a')
    requires LacksPair(s, 'i', 'm')
    ensures !PatternMatches(s, 0)
    ensures !PatternMatches(s, 1)
    ensures !PatternMatches(s, 2)
    ensures !PatternMatches(s, 3)
    ensures !PatternMatches(s, 4)
    ensures !PatternMatches(s, 5)
    ensures !PatternMatches(s, 6)
    ensures !PatternMatches(s, 7)
    ensures !PatternMatches(s, 8)
    ensures !PatternMatches(s, 9)
    ensures !PatternMatches(s, 10)
  {
    MissingCloseIsUnknownPatterns0(s);
    MissingCloseIsUnknownPatterns1(s);
  }

  lemma MissingCloseIsUnknown()
    ensures Classify(MissingCloseMessage).kind == Unknown
  {
    var s := Lower(MissingCloseMessage);
    MissingCloseIsUnknownLacks(s);
    MissingCloseIsUnknownPatterns(s);
    NoEntryMatches(Lower(MissingCloseMessage));
  }

  /** When each of the eleven table entries fails to match `s`, none does. */
  lemma NoEntryMatches(s: string)
    requires && !PatternMatches(s, 0) && !PatternMatches(s, 1) && !PatternMatches(s, 2)
             && !PatternMatches(s, 3) && !PatternMatches(s, 4) && !PatternMatches(s, 5)
             && !PatternMatches(s, 6) && !PatternMatches(s, 7) && !PatternMatches(s, 8)
             && !PatternMatches(s, 9) && !PatternMatches(s, 10)
    ensures forall j :: 0 <= j < |ErrorPatterns| ==> !PatternMatches(s, j)
  {
    forall j | 0 <= j < |ErrorPatterns| ensures !PatternMatches(s, j) {
      assert j == 0 || j == 1 || j == 2 || j == 3 || j == 4 || j == 5
          || j == 6 || j == 7 || j == 8 || j == 9 || j == 10;
    }
  }
}
