/**
 * The token words each production accepts, read off the grammar comments of
 * the productions: a successful call consumes exactly such a word. Comments
 * are never consumed, so they do not appear in the words.
 */
module Language {
  import opened Tokens
  import opened Grammar

  /** Every token is a whitespace symbol: `S*`. */
  predicate Spaces(ts: seq<Token>)
  {
    forall i :: 0 <= i < |ts| ==> IsSymbol(ts[i], "S")
  }

  /** One symbol of the given name. */
  predicate OneSymbol(ts: seq<Token>, name: string)
  {
    |ts| == 1 && IsSymbol(ts[0], name)
  }

  /** namespace_prefix : [ IDENT | '*' ]? '|' */
  predicate NamespacePrefixWord(ts: seq<Token>)
  {
    || ts == [Lit('|')]
    || (|ts| == 2 && (IsSymbol(ts[0], "IDENT") || ts[0] == Lit('*')) && ts[1] == Lit('|'))
  }

  /** type_selector : [ namespace_prefix ]? element_name; the name part of
      `attrib` has the same shape. */
  predicate TypeSelectorWord(ts: seq<Token>)
  {
    |ts| >= 1 && IsSymbol(ts[|ts| - 1], "IDENT")
    && (|ts| == 1 || NamespacePrefixWord(ts[..|ts| - 1]))
  }

  /** universal : [ namespace_prefix ]? '*' */
  predicate UniversalWord(ts: seq<Token>)
  {
    |ts| >= 1 && ts[|ts| - 1] == Lit('*')
    && (|ts| == 1 || NamespacePrefixWord(ts[..|ts| - 1]))
  }

  /** class : '.' IDENT */
  predicate ClassWord(ts: seq<Token>)
  {
    |ts| == 2 && ts[0] == Lit('.') && IsSymbol(ts[1], "IDENT")
  }

  /** S* [ IDENT | STRING ] S*, the value part of `attrib_G1`. */
  predicate AttribValueWord(ts: seq<Token>)
  {
    exists a :: 0 <= a < |ts| && Spaces(ts[..a]) && StartsAny(AttribValues, ts[a]) && Spaces(ts[a + 1..])
  }

  /** attrib_G1 : operator S* [ IDENT | STRING ] S* */
  predicate AttribG1Word(ts: seq<Token>)
  {
    |ts| >= 1 && StartsAny(AttribOperators, ts[0]) && AttribValueWord(ts[1..])
  }

  /** S* [ namespace_prefix ]? IDENT, the name part of `attrib`. */
  predicate AttribNameWord(ts: seq<Token>)
  {
    exists a :: 0 <= a < |ts| && Spaces(ts[..a]) && TypeSelectorWord(ts[a..])
  }

  /** S* [ attrib_G1 ]? ']', the end of `attrib`. */
  predicate AttribCloseWord(ts: seq<Token>)
  {
    |ts| >= 1 && ts[|ts| - 1] == Lit(']')
    && exists a :: 0 <= a < |ts| && Spaces(ts[..a]) && (a == |ts| - 1 || AttribG1Word(ts[a..|ts| - 1]))
  }

  /** attrib : '[' S* [ namespace_prefix ]? IDENT S* [ attrib_G1 ]? ']' */
  predicate AttribWord(ts: seq<Token>)
  {
    |ts| >= 1 && ts[0] == Lit('[')
    && exists b :: 1 <= b < |ts| && AttribNameWord(ts[1..b]) && AttribCloseWord(ts[b..])
  }

  /** A whitespace token or one term of `expression`. */
  predicate SpaceOrTerm(tok: Token)
  {
    IsSymbol(tok, "S") || StartsAny(ExpressionTerms, tok)
  }

  /** Spaces, then one term of `expression`: a later round of its loop. */
  predicate SpacesThenTerm(ts: seq<Token>)
  {
    |ts| >= 1 && Spaces(ts[..|ts| - 1]) && StartsAny(ExpressionTerms, ts[|ts| - 1])
  }

  /** Every token is a space or a term. */
  predicate SpacesAndTerms(ts: seq<Token>)
  {
    forall i :: 0 <= i < |ts| ==> SpaceOrTerm(ts[i])
  }

  /** expression : [ term S* ]+, read flat: a term, then any mix of terms
      and spaces. `ExpressionWordIsRounds` proves it the same language as
      the rounds of the grammar. */
  predicate ExpressionWord(ts: seq<Token>)
  {
    |ts| >= 1 && StartsAny(ExpressionTerms, ts[0]) && SpacesAndTerms(ts)
  }

  /** S* expression ')', the arguments of `functional_pseudo`. */
  predicate FunctionArgsWord(ts: seq<Token>)
  {
    |ts| >= 1 && ts[|ts| - 1] == Lit(')')
    && exists a :: 0 <= a < |ts| - 1 && Spaces(ts[..a]) && ExpressionWord(ts[a..|ts| - 1])
  }

  /** functional_pseudo : FUNCTION S* expression ')' */
  predicate FunctionalPseudoWord(ts: seq<Token>)
  {
    |ts| >= 1 && IsSymbol(ts[0], "FUNCTION") && FunctionArgsWord(ts[1..])
  }

  /** IDENT | functional_pseudo, after the colons of `pseudo`. */
  predicate PseudoNameWord(ts: seq<Token>)
  {
    OneSymbol(ts, "IDENT") || FunctionalPseudoWord(ts)
  }

  /** ':'? [ IDENT | functional_pseudo ], what follows the first colon of
      `pseudo`; a second colon is always taken. */
  predicate PseudoRestWord(ts: seq<Token>)
  {
    |ts| >= 1 && if ts[0] == Lit(':') then PseudoNameWord(ts[1..]) else PseudoNameWord(ts)
  }

  /** pseudo : ':' ':'? [ IDENT | functional_pseudo ] */
  predicate PseudoWord(ts: seq<Token>)
  {
    |ts| >= 1 && ts[0] == Lit(':') && PseudoRestWord(ts[1..])
  }

  /** The alternative list `negation_arg` names: type_selector | universal |
      HASH | class | attrib | pseudo. */
  predicate NegationArgWord(ts: seq<Token>)
  {
    || TypeSelectorWord(ts) || UniversalWord(ts) || OneSymbol(ts, "HASH")
    || ClassWord(ts) || AttribWord(ts) || PseudoWord(ts)
  }

  /** S* negation_arg S*, what follows NOT in `negation`. */
  predicate NegationBodyWord(ts: seq<Token>)
  {
    exists a, b :: 0 <= a <= b <= |ts| && Spaces(ts[..a]) && NegationArgWord(ts[a..b]) && Spaces(ts[b..])
  }

  /** negation : NOT S* negation_arg S*, as written: the closing
      parenthesis is not part of a successful negation. */
  predicate NegationWord(ts: seq<Token>)
  {
    |ts| >= 1 && IsSymbol(ts[0], "NOT") && NegationBodyWord(ts[1..])
  }

  /** G1 : HASH | class | attrib | pseudo | negation */
  predicate G1Word(ts: seq<Token>)
  {
    OneSymbol(ts, "HASH") || ClassWord(ts) || AttribWord(ts) || PseudoWord(ts) || NegationWord(ts)
  }

  /** G1* */
  predicate G1Star(ts: seq<Token>)
    decreases |ts|
  {
    ts == [] || exists k :: 0 <= k < |ts| && G1Star(ts[..k]) && G1Word(ts[k..])
  }

  /** simple_selector_sequence : [ type_selector | universal ] G1* | G1+ */
  predicate SimpleSelectorSequenceWord(ts: seq<Token>)
  {
    exists k :: 0 < k <= |ts| && (TypeSelectorWord(ts[..k]) || UniversalWord(ts[..k]) || G1Word(ts[..k]))
                && G1Star(ts[k..])
  }

  /** The combinator rule has no grammar in the source (the method is a
      stub); its word is left unconstrained beyond being non-empty. */
  predicate CombinatorWord(ts: seq<Token>)
  {
    |ts| > 0
  }

  /** selector : simple_selector_sequence [ combinator simple_selector_sequence ]* */
  predicate SelectorWord(ts: seq<Token>)
    decreases |ts|
  {
    || SimpleSelectorSequenceWord(ts)
    || exists a, b :: 0 < a < b < |ts| && SelectorWord(ts[..a]) && CombinatorWord(ts[a..b])
                      && SimpleSelectorSequenceWord(ts[b..])
  }

  /** COMMA S* selector, one more selector of a group. */
  predicate NextSelectorWord(ts: seq<Token>)
  {
    |ts| >= 1 && IsSymbol(ts[0], "COMMA")
    && exists a :: 1 <= a < |ts| && Spaces(ts[1..a]) && SelectorWord(ts[a..])
  }

  /** selectors_group : selector [ COMMA S* selector ]* */
  predicate SelectorsGroupWord(ts: seq<Token>)
    decreases |ts|
  {
    || SelectorWord(ts)
    || exists k :: 0 < k < |ts| && SelectorsGroupWord(ts[..k]) && NextSelectorWord(ts[k..])
  }

  /** The words of each production. */
  predicate Derives(p: Prod, ts: seq<Token>)
  {
    match p
    case SelectorsGroup => SelectorsGroupWord(ts)
    case Selector => SelectorWord(ts)
    case Combinator => CombinatorWord(ts)
    case SimpleSelectorSequence => SimpleSelectorSequenceWord(ts)
    case SimpleSelectorSequenceG1 => G1Word(ts)
    case TypeSelector => TypeSelectorWord(ts)
    case NamespacePrefix => NamespacePrefixWord(ts)
    case ElementName => OneSymbol(ts, "IDENT")
    case Universal => UniversalWord(ts)
    case Class => ClassWord(ts)
    case Attrib => AttribWord(ts)
    case AttribG1 => AttribG1Word(ts)
    case Pseudo => PseudoWord(ts)
    case FunctionalPseudo => FunctionalPseudoWord(ts)
    case Expression => ExpressionWord(ts)
    case Negation => NegationWord(ts)
    case NegationArg => NegationArgWord(ts)
  }

  /** The words of a term: the one character, the one symbol, or a word of
      the production. */
  predicate TermDerives(t: Term, ts: seq<Token>)
  {
    match t
    case Char(c) => ts == [Lit(c)]
    case Symbol(name) => OneSymbol(ts, name)
    case Production(p) => Derives(p, ts)
  }

  lemma ExpressionWordStarts(ts: seq<Token>)
    requires ExpressionWord(ts)
    ensures |ts| > 0 && StartsAny(ExpressionTerms, ts[0])
  {
  }

  /** The head of a simple selector sequence begins with a name, a '*',
      a '|' or a G1 token. */
  lemma SequenceHeadStarts(w: seq<Token>)
    requires TypeSelectorWord(w) || UniversalWord(w) || G1Word(w)
    ensures |w| > 0 && (StartsName(w[0]) || StartsG1(w[0]))
  {
    if G1Word(w) {
      G1WordNonEmpty(w);
    } else if |w| > 1 {
      assert w[..|w| - 1][0] == w[0];
    }
  }

  lemma SimpleSelectorSequenceWordStarts(ts: seq<Token>)
    requires SimpleSelectorSequenceWord(ts)
    ensures |ts| > 0 && (StartsName(ts[0]) || StartsG1(ts[0]))
  {
    var k :| 0 < k <= |ts| && (TypeSelectorWord(ts[..k]) || UniversalWord(ts[..k]) || G1Word(ts[..k]))
             && G1Star(ts[k..]);
    SequenceHeadStarts(ts[..k]);
    assert ts[..k][0] == ts[0];
  }

  lemma {:induction false} SelectorWordStarts(ts: seq<Token>)
    requires SelectorWord(ts)
    ensures |ts| > 0 && (StartsName(ts[0]) || StartsG1(ts[0]))
    decreases |ts|
  {
    if SimpleSelectorSequenceWord(ts) {
      SimpleSelectorSequenceWordStarts(ts);
    } else {
      var a, b :| 0 < a < b < |ts| && SelectorWord(ts[..a]) && CombinatorWord(ts[a..b])
                  && SimpleSelectorSequenceWord(ts[b..]);
      SelectorWordStarts(ts[..a]);
      assert ts[..a][0] == ts[0];
    }
  }

  lemma {:induction false} SelectorsGroupWordStarts(ts: seq<Token>)
    requires SelectorsGroupWord(ts)
    ensures |ts| > 0 && (StartsName(ts[0]) || StartsG1(ts[0]))
    decreases |ts|
  {
    if SelectorWord(ts) {
      SelectorWordStarts(ts);
    } else {
      var k :| 0 < k < |ts| && SelectorsGroupWord(ts[..k]) && NextSelectorWord(ts[k..]);
      SelectorsGroupWordStarts(ts[..k]);
      assert ts[..k][0] == ts[0];
    }
  }

  /** Every word of a production begins with a token of its first set: the
      languages agree with `CanStart`. The combinator stub is left out, as
      it has no grammar. */
  lemma DerivesStartsRight(p: Prod, ts: seq<Token>)
    requires p != Combinator && Derives(p, ts)
    ensures |ts| > 0 && CanStart(p, ts[0])
  {
    match p
    case SelectorsGroup => SelectorsGroupWordStarts(ts);
    case Selector => SelectorWordStarts(ts);
    case SimpleSelectorSequence => SimpleSelectorSequenceWordStarts(ts);
    case TypeSelector =>
      if |ts| > 1 {
        assert ts[..|ts| - 1][0] == ts[0];
      }
    case Universal =>
      if |ts| > 1 {
        assert ts[..|ts| - 1][0] == ts[0];
      }
    case Expression => ExpressionWordStarts(ts);
    case FunctionalPseudo =>
    case NegationArg =>
      if |ts| > 1 && (TypeSelectorWord(ts) || UniversalWord(ts)) {
        assert ts[..|ts| - 1][0] == ts[0];
      }
    case AttribG1 =>
    case _ =>
  }

  /* Building words from the pieces a trace gains, one call after another.
     `t0 <= t1` says the trace `t1` extends `t0`, and `t1[|t0|..]` is what
     was read in between. */

  /** What two successive calls read is the concatenation of what each
      read. */
  lemma Split(t0: seq<Token>, t1: seq<Token>, t2: seq<Token>)
    requires t0 <= t1 && t1 <= t2
    ensures t2[|t0|..] == t1[|t0|..] + t2[|t1|..]
  {
  }

  /** The two pieces of a concatenation, sliced back out. */
  lemma Halves(x: seq<Token>, y: seq<Token>)
    ensures (x + y)[..|x|] == x && (x + y)[|x|..] == y
  {
  }

  lemma G1WordNonEmpty(ts: seq<Token>)
    requires G1Word(ts)
    ensures |ts| > 0
  {
    if NegationWord(ts) {
    }
  }

  /** One more whitespace token keeps a run of spaces. */
  lemma SpacesStep(t0: seq<Token>, t1: seq<Token>, t2: seq<Token>)
    requires t0 <= t1 && Spaces(t1[|t0|..])
    requires |t2| == |t1| + 1 && t1 <= t2 && IsSymbol(t2[|t1|], "S")
    ensures t0 <= t2 && Spaces(t2[|t0|..])
  {
    assert t2[|t0|..] == t1[|t0|..] + [t2[|t1|]];
  }

  lemma NextSelectorOf(t0: seq<Token>, t1: seq<Token>, t2: seq<Token>, t3: seq<Token>)
    requires |t1| == |t0| + 1 && t0 <= t1 && IsSymbol(t1[|t0|], "COMMA")
    requires t1 <= t2 && Spaces(t2[|t1|..])
    requires t2 <= t3 && SelectorWord(t3[|t2|..])
    ensures t0 <= t3 && NextSelectorWord(t3[|t0|..])
  {
    SelectorWordStarts(t3[|t2|..]);
    var w := t3[|t0|..];
    var a := |t2| - |t0|;
    assert w[1..a] == t2[|t1|..];
    assert w[a..] == t3[|t2|..];
  }

  lemma SelectorsGroupJoin(x: seq<Token>, y: seq<Token>)
    requires SelectorsGroupWord(x) && NextSelectorWord(y)
    ensures SelectorsGroupWord(x + y)
  {
    SelectorsGroupWordStarts(x);
    Halves(x, y);
  }

  lemma SelectorsGroupStep(t0: seq<Token>, t1: seq<Token>, t2: seq<Token>)
    requires t0 <= t1 && SelectorsGroupWord(t1[|t0|..])
    requires t1 <= t2 && NextSelectorWord(t2[|t1|..])
    ensures t0 <= t2 && SelectorsGroupWord(t2[|t0|..])
  {
    Split(t0, t1, t2);
    SelectorsGroupJoin(t1[|t0|..], t2[|t1|..]);
  }

  /** A combinator and one more sequence after a selector. */
  lemma SelectorJoin(x: seq<Token>, c: seq<Token>, y: seq<Token>)
    requires SelectorWord(x) && CombinatorWord(c) && SimpleSelectorSequenceWord(y)
    ensures SelectorWord(x + c + y)
  {
    SelectorWordStarts(x);
    SimpleSelectorSequenceWordStarts(y);
    Halves(x + c, y);
    Halves(x, c);
    var w := x + c + y;
    assert w[..|x|] == (x + c)[..|x|];
    assert w[|x|..|x| + |c|] == (x + c)[|x|..];
  }

  lemma SelectorStep(t0: seq<Token>, m: seq<Token>, t1: seq<Token>, t2: seq<Token>)
    requires t0 <= m && SelectorWord(m[|t0|..])
    requires m <= t1 && CombinatorWord(t1[|m|..])
    requires t1 <= t2 && SimpleSelectorSequenceWord(t2[|t1|..])
    ensures t0 <= t2 && SelectorWord(t2[|t0|..])
  {
    Split(t0, m, t1);
    Split(t0, t1, t2);
    SelectorJoin(m[|t0|..], t1[|m|..], t2[|t1|..]);
  }

  lemma SimpleSelectorSequenceJoin(x: seq<Token>, y: seq<Token>)
    requires TypeSelectorWord(x) || UniversalWord(x) || G1Word(x)
    requires G1Star(y)
    ensures SimpleSelectorSequenceWord(x + y)
  {
    SequenceHeadStarts(x);
    Halves(x, y);
  }

  lemma SimpleSelectorSequenceOf(t0: seq<Token>, t1: seq<Token>, t2: seq<Token>)
    requires t0 <= t1
    requires TypeSelectorWord(t1[|t0|..]) || UniversalWord(t1[|t0|..]) || G1Word(t1[|t0|..])
    requires t1 <= t2 && G1Star(t2[|t1|..])
    ensures t0 <= t2 && SimpleSelectorSequenceWord(t2[|t0|..])
  {
    Split(t0, t1, t2);
    SimpleSelectorSequenceJoin(t1[|t0|..], t2[|t1|..]);
  }

  lemma G1StarJoin(x: seq<Token>, y: seq<Token>)
    requires G1Star(x) && G1Word(y)
    ensures G1Star(x + y)
  {
    G1WordNonEmpty(y);
    Halves(x, y);
  }

  lemma G1StarStep(t0: seq<Token>, t1: seq<Token>, t2: seq<Token>)
    requires t0 <= t1 && G1Star(t1[|t0|..])
    requires t1 <= t2 && G1Word(t2[|t1|..])
    ensures t0 <= t2 && G1Star(t2[|t0|..])
  {
    Split(t0, t1, t2);
    G1StarJoin(t1[|t0|..], t2[|t1|..]);
  }

  /** An optional namespace prefix, then one more token: the shape of
      type_selector and universal. */
  lemma PrefixedOf(t0: seq<Token>, t1: seq<Token>, t2: seq<Token>)
    requires t0 <= t1 && (t1 == t0 || NamespacePrefixWord(t1[|t0|..]))
    requires t1 <= t2 && |t2| == |t1| + 1
    ensures t0 <= t2
    ensures var w := t2[|t0|..]; |w| >= 1 && w[|w| - 1] == t2[|t1|]
                                 && (|w| == 1 || NamespacePrefixWord(w[..|w| - 1]))
  {
    var w := t2[|t0|..];
    assert w[..|w| - 1] == t1[|t0|..];
  }

  lemma AttribOf(t0: seq<Token>, t1: seq<Token>, t2: seq<Token>, t3: seq<Token>)
    requires |t1| == |t0| + 1 && t0 <= t1 && t1[|t0|] == Lit('[')
    requires t1 <= t2 && AttribNameWord(t2[|t1|..])
    requires t2 <= t3 && AttribCloseWord(t3[|t2|..])
    ensures t0 <= t3 && AttribWord(t3[|t0|..])
  {
    var w := t3[|t0|..];
    var b := |t2| - |t0|;
    assert w[1..b] == t2[|t1|..];
    assert w[b..] == t3[|t2|..];
  }

  lemma AttribNameOf(t0: seq<Token>, t1: seq<Token>, t2: seq<Token>)
    requires t0 <= t1 && Spaces(t1[|t0|..])
    requires t1 <= t2 && TypeSelectorWord(t2[|t1|..])
    ensures t0 <= t2 && AttribNameWord(t2[|t0|..])
  {
    var w := t2[|t0|..];
    var a := |t1| - |t0|;
    assert w[..a] == t1[|t0|..];
    assert w[a..] == t2[|t1|..];
  }

  lemma AttribCloseOf(t0: seq<Token>, t1: seq<Token>, t2: seq<Token>, t3: seq<Token>)
    requires t0 <= t1 && Spaces(t1[|t0|..])
    requires t1 <= t2 && (t2 == t1 || AttribG1Word(t2[|t1|..]))
    requires t3 == t2 + [Lit(']')]
    ensures t0 <= t3 && AttribCloseWord(t3[|t0|..])
  {
    var w := t3[|t0|..];
    var a := |t1| - |t0|;
    assert w[..a] == t1[|t0|..];
    assert w[a..|w| - 1] == t2[|t1|..];
  }

  /** A term of a list without productions reads one token, which the list
      starts with. */
  lemma OneTokenTerm(ts: seq<Term>, i: int, t0: seq<Token>, t1: seq<Token>)
    requires 0 <= i < |ts| && !ts[i].Production?
    requires t0 <= t1 && TermDerives(ts[i], t1[|t0|..])
    ensures |t1| == |t0| + 1 && t1 == t0 + [t1[|t0|]] && StartsAny(ts, t1[|t0|])
  {
    assert TermMatches(ts[i], t1[|t0|]);
  }

  lemma AttribG1Of(t0: seq<Token>, t1: seq<Token>, t2: seq<Token>)
    requires |t1| == |t0| + 1 && t0 <= t1 && StartsAny(AttribOperators, t1[|t0|])
    requires t1 <= t2 && AttribValueWord(t2[|t1|..])
    ensures t0 <= t2 && AttribG1Word(t2[|t0|..])
  {
    assert t2[|t0|..][1..] == t2[|t1|..];
  }

  lemma AttribValueOf(t0: seq<Token>, t1: seq<Token>, t2: seq<Token>, t3: seq<Token>)
    requires t0 <= t1 && Spaces(t1[|t0|..])
    requires |t2| == |t1| + 1 && t1 <= t2 && StartsAny(AttribValues, t2[|t1|])
    requires t2 <= t3 && Spaces(t3[|t2|..])
    ensures t0 <= t3 && AttribValueWord(t3[|t0|..])
  {
    var w := t3[|t0|..];
    var a := |t1| - |t0|;
    assert w[..a] == t1[|t0|..];
    assert w[a + 1..] == t3[|t2|..];
  }

  lemma PseudoNameStarts(ts: seq<Token>)
    requires PseudoNameWord(ts)
    ensures |ts| > 0 && ts[0].Sym?
  {
  }

  lemma PseudoRestOf(t0: seq<Token>, t1: seq<Token>, t2: seq<Token>)
    requires t1 == t0 || t1 == t0 + [Lit(':')]
    requires t1 <= t2 && PseudoNameWord(t2[|t1|..])
    ensures t0 <= t2 && PseudoRestWord(t2[|t0|..])
  {
    PseudoNameStarts(t2[|t1|..]);
    var w := t2[|t0|..];
    if t1 != t0 {
      assert w[1..] == t2[|t1|..];
    }
  }

  /** A stretch that is one IDENT ends the trace in that token. */
  lemma IdentNameLast(t0: seq<Token>, t1: seq<Token>)
    requires t0 <= t1 && OneSymbol(t1[|t0|..], "IDENT")
    ensures |t1| == |t0| + 1 && IsSymbol(t1[|t1| - 1], "IDENT")
  {
    assert t1[|t1| - 1] == t1[|t0|..][0];
  }

  lemma PseudoOf(t0: seq<Token>, t1: seq<Token>, t2: seq<Token>)
    requires |t1| == |t0| + 1 && t0 <= t1 && t1[|t0|] == Lit(':')
    requires t1 <= t2 && PseudoRestWord(t2[|t1|..])
    ensures t0 <= t2 && PseudoWord(t2[|t0|..])
  {
    assert t2[|t0|..][1..] == t2[|t1|..];
  }


  lemma FunctionArgsOf(t0: seq<Token>, t1: seq<Token>, t2: seq<Token>, t3: seq<Token>)
    requires t0 <= t1 && Spaces(t1[|t0|..])
    requires t1 <= t2 && ExpressionWord(t2[|t1|..])
    requires t3 == t2 + [Lit(')')]
    ensures t0 <= t3 && FunctionArgsWord(t3[|t0|..])
  {
    Split(t0, t1, t2);
    assert t3[|t0|..] == t1[|t0|..] + t2[|t1|..] + [Lit(')')];
    FunctionArgsJoin(t1[|t0|..], t2[|t1|..]);
  }

  lemma FunctionArgsJoin(x: seq<Token>, y: seq<Token>)
    requires Spaces(x) && ExpressionWord(y)
    ensures FunctionArgsWord(x + y + [Lit(')')])
  {
    var w := x + y + [Lit(')')];
    Halves(x + y, [Lit(')')]);
    Halves(x, y);
    assert w[..|x|] == (x + y)[..|x|];
    assert w[|x|..|w| - 1] == (x + y)[|x|..];
  }

  lemma FunctionalPseudoOf(t0: seq<Token>, t1: seq<Token>, t2: seq<Token>)
    requires |t1| == |t0| + 1 && t0 <= t1 && IsSymbol(t1[|t0|], "FUNCTION")
    requires t1 <= t2 && FunctionArgsWord(t2[|t1|..])
    ensures t0 <= t2 && FunctionalPseudoWord(t2[|t0|..])
  {
    assert t2[|t0|..][1..] == t2[|t1|..];
  }

  lemma ExpressionNextOf(t0: seq<Token>, t1: seq<Token>, t2: seq<Token>)
    requires t0 <= t1 && Spaces(t1[|t0|..])
    requires |t2| == |t1| + 1 && t1 <= t2 && StartsAny(ExpressionTerms, t2[|t1|])
    ensures t0 <= t2 && SpacesThenTerm(t2[|t0|..])
  {
    var w := t2[|t0|..];
    assert w[..|w| - 1] == t1[|t0|..];
  }

  /** Spaces, and spaces then a term, are spaces and terms. */
  lemma SpacesAndTermsStep(t0: seq<Token>, t1: seq<Token>, t2: seq<Token>)
    requires t0 <= t1 && SpacesAndTerms(t1[|t0|..])
    requires t1 <= t2 && (SpacesThenTerm(t2[|t1|..]) || Spaces(t2[|t1|..]))
    ensures t0 <= t2 && SpacesAndTerms(t2[|t0|..])
  {
    var x, n := t1[|t0|..], t2[|t1|..];
    var w := t2[|t0|..];
    assert w == x + n;
    forall i | 0 <= i < |w|
      ensures SpaceOrTerm(w[i])
    {
      if i >= |x| {
        var j := i - |x|;
        assert w[i] == n[j];
        if SpacesThenTerm(n) && j < |n| - 1 {
          assert n[j] == n[..|n| - 1][j];
        }
      }
    }
  }

  /** A first term, then spaces and terms: an expression. */
  lemma ExpressionOf(t0: seq<Token>, t1: seq<Token>, t2: seq<Token>)
    requires |t1| == |t0| + 1 && t0 <= t1 && StartsAny(ExpressionTerms, t1[|t0|])
    requires t1 <= t2 && SpacesAndTerms(t2[|t1|..])
    ensures t0 <= t2 && ExpressionWord(t2[|t0|..])
  {
    var w := t2[|t0|..];
    assert forall i :: 1 <= i < |w| ==> w[i] == t2[|t1|..][i - 1];
  }

  lemma NegationBodyOf(t0: seq<Token>, t1: seq<Token>, t2: seq<Token>, t3: seq<Token>)
    requires t0 <= t1 && Spaces(t1[|t0|..])
    requires t1 <= t2 && NegationArgWord(t2[|t1|..])
    requires t2 <= t3 && Spaces(t3[|t2|..])
    ensures t0 <= t3 && NegationBodyWord(t3[|t0|..])
  {
    var w := t3[|t0|..];
    var a, b := |t1| - |t0|, |t2| - |t0|;
    assert w[..a] == t1[|t0|..];
    assert w[a..b] == t2[|t1|..];
    assert w[b..] == t3[|t2|..];
  }

  lemma NegationOf(t0: seq<Token>, t1: seq<Token>, t2: seq<Token>)
    requires |t1| == |t0| + 1 && t0 <= t1 && IsSymbol(t1[|t0|], "NOT")
    requires t1 <= t2 && NegationBodyWord(t2[|t1|..])
    ensures t0 <= t2 && NegationWord(t2[|t0|..])
  {
    assert t2[|t0|..][1..] == t2[|t1|..];
  }

  /** A word of either alternative after the colons of `pseudo`. */
  lemma PseudoNameDerives(i: int, ts: seq<Token>)
    requires 0 <= i < |PseudoNames| && TermDerives(PseudoNames[i], ts)
    ensures PseudoNameWord(ts)
  {
  }

  /* Ordered choice. The alternatives a production tries in turn are told
     apart by their tokens, so no word belongs to two of them. */

  /** The heads of simple_selector_sequence: type_selector (tried first)
      and universal share no word, and neither shares one with G1. A
      type-selector word may still be a prefix of a universal word ("ns" of
      "ns|*"); what keeps the order harmless in the parser is that both
      begin with the same greedy namespace prefix and then need different
      tokens. */
  lemma HeadAlternativesDisjoint(ts: seq<Token>)
    ensures !(TypeSelectorWord(ts) && UniversalWord(ts))
    ensures TypeSelectorWord(ts) || UniversalWord(ts) ==> !G1Word(ts)
  {
    if G1Word(ts) && (TypeSelectorWord(ts) || UniversalWord(ts)) {
      DerivesStartsRight(SimpleSelectorSequenceG1, ts);
      if TypeSelectorWord(ts) {
        DerivesStartsRight(TypeSelector, ts);
      } else {
        DerivesStartsRight(Universal, ts);
      }
    }
  }

  /** The alternatives of G1, in the order they are tried: HASH, class,
      attrib, pseudo, negation; each excludes the ones after it. */
  lemma G1AlternativesDisjoint(ts: seq<Token>)
    ensures OneSymbol(ts, "HASH") ==> !ClassWord(ts) && !AttribWord(ts) && !PseudoWord(ts) && !NegationWord(ts)
    ensures ClassWord(ts) ==> !AttribWord(ts) && !PseudoWord(ts) && !NegationWord(ts)
    ensures AttribWord(ts) ==> !PseudoWord(ts) && !NegationWord(ts)
    ensures PseudoWord(ts) ==> !NegationWord(ts)
  {
  }

  /** After the colons of `pseudo`, IDENT is tried before functional_pseudo:
      a name that begins with IDENT is that one token. */
  lemma PseudoNameIdentAlone(ts: seq<Token>)
    requires PseudoNameWord(ts) && IsSymbol(ts[0], "IDENT")
    ensures ts == [ts[0]]
  {
  }

  /* The grammar of `expression` as written, one round of its loop at a
     time, against the flat reading `ExpressionWord`. */

  /** term S*, one round of the loop of `expression`. */
  predicate TermSpaces(ts: seq<Token>)
  {
    |ts| >= 1 && StartsAny(ExpressionTerms, ts[0]) && Spaces(ts[1..])
  }

  /** [ term S* ]+ */
  predicate ExpressionRounds(ts: seq<Token>)
    decreases |ts|
  {
    || TermSpaces(ts)
    || exists k :: 0 < k < |ts| && ExpressionRounds(ts[..k]) && TermSpaces(ts[k..])
  }

  lemma {:induction false} RoundsAreExpression(ts: seq<Token>)
    requires ExpressionRounds(ts)
    ensures ExpressionWord(ts)
    decreases |ts|
  {
    if !TermSpaces(ts) {
      var k :| 0 < k < |ts| && ExpressionRounds(ts[..k]) && TermSpaces(ts[k..]);
      RoundsAreExpression(ts[..k]);
      assert ts[0] == ts[..k][0];
      forall i | 0 <= i < |ts|
        ensures SpaceOrTerm(ts[i])
      {
        if i < k {
          assert ts[i] == ts[..k][i];
        } else if i > k {
          assert ts[i] == ts[k..][1..][i - k - 1];
        }
      }
    }
  }

  /** A space after some rounds extends the last round. */
  lemma {:induction false} RoundsThenSpace(ts: seq<Token>, s: Token)
    requires ExpressionRounds(ts) && IsSymbol(s, "S")
    ensures ExpressionRounds(ts + [s])
    decreases |ts|
  {
    var w := ts + [s];
    if TermSpaces(ts) {
      assert w[1..] == ts[1..] + [s];
    } else {
      var k :| 0 < k < |ts| && ExpressionRounds(ts[..k]) && TermSpaces(ts[k..]);
      assert w[..k] == ts[..k];
      assert w[k..][1..] == ts[k..][1..] + [s];
    }
  }

  lemma {:induction false} ExpressionAreRounds(ts: seq<Token>)
    requires ExpressionWord(ts)
    ensures ExpressionRounds(ts)
    decreases |ts|
  {
    if |ts| > 1 {
      var p := ts[..|ts| - 1];
      var x := ts[|ts| - 1];
      assert ts == p + [x];
      assert p[0] == ts[0];
      assert forall i :: 0 <= i < |p| ==> p[i] == ts[i];
      ExpressionAreRounds(p);
      if StartsAny(ExpressionTerms, x) {
        assert ts[..|p|] == p;
        assert TermSpaces(ts[|p|..]);
      } else {
        assert SpaceOrTerm(ts[|ts| - 1]);
        RoundsThenSpace(p, x);
      }
    }
  }

  /** The flat reading of `expression` is its grammar. */
  lemma ExpressionWordIsRounds(ts: seq<Token>)
    ensures ExpressionWord(ts) <==> ExpressionRounds(ts)
  {
    if ExpressionWord(ts) {
      ExpressionAreRounds(ts);
    }
    if ExpressionRounds(ts) {
      RoundsAreExpression(ts);
    }
  }
}
