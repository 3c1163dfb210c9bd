/**
 * The productions of the selector grammar as a closed set, the three kinds of
 * grammar terms, and the term lists of the rules written as alternatives.
 */
module Grammar {
  import opened Tokens

  datatype Option<T> = None | Some(value: T)

  /** One identifier per production method of the parser. */
  datatype Prod =
    | SelectorsGroup | Selector | Combinator
    | SimpleSelectorSequence | SimpleSelectorSequenceG1
    | TypeSelector | NamespacePrefix | ElementName | Universal
    | Class | Attrib | AttribG1
    | Pseudo | FunctionalPseudo | Expression
    | Negation | NegationArg

  /** The method name under which the parser dispatches a production. */
  function ProdName(p: Prod): string
  {
    match p
    case SelectorsGroup => "selectors_group"
    case Selector => "selector"
    case Combinator => "combinator"
    case SimpleSelectorSequence => "simple_selector_sequence"
    case SimpleSelectorSequenceG1 => "simple_selector_sequence_G1"
    case TypeSelector => "type_selector"
    case NamespacePrefix => "namespace_prefix"
    case ElementName => "element_name"
    case Universal => "universal"
    case Class => "_class"
    case Attrib => "attrib"
    case AttribG1 => "attrib_G1"
    case Pseudo => "pseudo"
    case FunctionalPseudo => "functional_pseudo"
    case Expression => "expression"
    case Negation => "negation"
    case NegationArg => "negation_arg"
  }

  /** The production a method name dispatches to, if there is one. */
  function ProdNamed(name: string): (r: Option<Prod>)
    ensures r.Some? ==> ProdName(r.value) == name
  {
    if name == "selectors_group" then Some(SelectorsGroup)
    else if name == "selector" then Some(Selector)
    else if name == "combinator" then Some(Combinator)
    else if name == "simple_selector_sequence" then Some(SimpleSelectorSequence)
    else if name == "simple_selector_sequence_G1" then Some(SimpleSelectorSequenceG1)
    else if name == "type_selector" then Some(TypeSelector)
    else if name == "namespace_prefix" then Some(NamespacePrefix)
    else if name == "element_name" then Some(ElementName)
    else if name == "universal" then Some(Universal)
    else if name == "_class" then Some(Class)
    else if name == "attrib" then Some(Attrib)
    else if name == "attrib_G1" then Some(AttribG1)
    else if name == "pseudo" then Some(Pseudo)
    else if name == "functional_pseudo" then Some(FunctionalPseudo)
    else if name == "expression" then Some(Expression)
    else if name == "negation" then Some(Negation)
    else if name == "negation_arg" then Some(NegationArg)
    else None
  }

  /** Dispatch by name reaches every production under its own name. */
  lemma ProdNamedInverse(p: Prod)
    ensures ProdNamed(ProdName(p)) == Some(p)
  {
    match p {
      case SelectorsGroup =>
      case Selector =>
      case Combinator =>
      case SimpleSelectorSequence =>
      case SimpleSelectorSequenceG1 =>
      case TypeSelector =>
      case NamespacePrefix =>
      case ElementName =>
      case Universal =>
      case Class =>
      case Attrib =>
      case AttribG1 =>
      case Pseudo =>
      case FunctionalPseudo =>
      case Expression =>
      case Negation =>
      case NegationArg =>
    }
  }

  /** The grammar never reaches a production from itself: each production only
      calls productions of strictly lower rank. Together with the input left
      to read this orders every call the parser makes. */
  function Rank(p: Prod): nat
  {
    match p
    case SelectorsGroup => 7
    case Selector => 6
    case SimpleSelectorSequence => 5
    case SimpleSelectorSequenceG1 => 4
    case Pseudo => 3
    case Attrib => 2
    case FunctionalPseudo => 2
    case TypeSelector => 1
    case Universal => 1
    case AttribG1 => 1
    case Expression => 1
    case Negation => 1
    case Combinator => 0
    case NamespacePrefix => 0
    case ElementName => 0
    case Class => 0
    case NegationArg => 0
  }

  /** A grammar term: a literal character, a symbol name, or a production. */
  datatype Term = Char(c: char) | Symbol(name: string) | Production(p: Prod)

  datatype TermKind = CharTerm | SymbolTerm | ProductionTerm

  /** Upper-casing of one byte, as done for ASCII letters. */
  function ToUpper(c: char): char
  {
    if 'a' <= c <= 'z' then (c as int - 32) as char else c
  }

  /** How a term word is read, from its first character alone: a quote starts
      a character, a character that upper-casing leaves unchanged starts a
      symbol, anything else a production. */
  function Classify(word: string): (k: TermKind)
    requires |word| > 0
    ensures k == CharTerm <==> word[0] == '\''
    ensures k == ProductionTerm <==> 'a' <= word[0] <= 'z'
    ensures k == SymbolTerm <==> word[0] != '\'' && !('a' <= word[0] <= 'z')
  {
    if word[0] == '\'' then CharTerm
    else if ToUpper(word[0]) == word[0] then SymbolTerm
    else ProductionTerm
  }

  /** The term a word stands for; None when a character term has no
      character or a production word names no production. */
  function Compile(word: string): (t: Option<Term>)
    requires |word| > 0
    ensures t.Some? && t.value.Char? ==> word[0] == '\'' && |word| >= 2 && t.value.c == word[1]
    ensures t.Some? && t.value.Symbol? ==> Classify(word) == SymbolTerm && t.value.name == word
    ensures t.Some? && t.value.Production? ==> 'a' <= word[0] <= 'z' && ProdName(t.value.p) == word
    ensures t.None? <==> (word[0] == '\'' && |word| < 2) || (Classify(word) == ProductionTerm && ProdNamed(word).None?)
  {
    match Classify(word)
    case CharTerm => if |word| >= 2 then Some(Char(word[1])) else None
    case SymbolTerm => Some(Symbol(word))
    case ProductionTerm =>
      match ProdNamed(word)
      case Some(p) => Some(Production(p))
      case None => None
  }

  /** The terms of an alternative list, word by word; None if any word fails. */
  function CompileAll(words: seq<string>): (r: Option<seq<Term>>)
    requires forall i :: 0 <= i < |words| ==> |words[i]| > 0
    ensures r.Some? ==> |r.value| == |words|
    ensures r.Some? ==> forall i :: 0 <= i < |words| ==> Compile(words[i]) == Some(r.value[i])
    ensures r.None? ==> exists i :: 0 <= i < |words| && Compile(words[i]).None?
  {
    if words == [] then Some([])
    else
      match (Compile(words[0]), CompileAll(words[1..]))
      case (Some(t), Some(ts)) => Some([t] + ts)
      case (None, _) => None
      case (_, None) => None
  }

  function TermRank(t: Term): nat
  {
    if t.Production? then Rank(t.p) else 0
  }

  /** The alternatives of the attribute operator in `attrib_G1`. */
  const AttribOperators: seq<Term> :=
    [Symbol("PREFIXMATCH"), Symbol("SUFFIXMATCH"), Symbol("SUBSTRINGMATCH"),
     Char('='), Symbol("INCLUDES"), Symbol("DASHMATCH")]

  /** The alternatives of the attribute value in `attrib_G1`. */
  const AttribValues: seq<Term> := [Symbol("IDENT"), Symbol("STRING")]

  /** The alternatives after the colons of `pseudo`. */
  const PseudoNames: seq<Term> := [Symbol("IDENT"), Production(FunctionalPseudo)]

  /** The alternatives of one term of `expression`. */
  const ExpressionTerms: seq<Term> :=
    [Symbol("PLUS"), Char('-'), Symbol("DIMENSION"), Symbol("NUMBER"),
     Symbol("STRING"), Symbol("IDENT")]

  /** The alternative list `negation_arg` names. */
  const NegationArgWords: seq<string> :=
    ["type_selector", "universal", "HASH", "class", "attrib", "pseudo"]

  /** A word list compiles to the terms its words compile to one by one. */
  lemma {:induction false} CompilesTo(words: seq<string>, ts: seq<Term>)
    requires |words| == |ts|
    requires forall i :: 0 <= i < |words| ==> |words[i]| > 0 && Compile(words[i]) == Some(ts[i])
    ensures CompileAll(words) == Some(ts)
  {
    if words != [] {
      assert Compile(words[0]) == Some(ts[0]);
      CompilesTo(words[1..], ts[1..]);
      assert [ts[0]] + ts[1..] == ts;
    }
  }

  /** A list with a word that fails to compile has no compiled form: with
      the postcondition of `CompileAll` this is an if-and-only-if. */
  lemma {:induction false} CompileAllFails(words: seq<string>, i: int)
    requires forall j :: 0 <= j < |words| ==> |words[j]| > 0
    requires 0 <= i < |words| && Compile(words[i]).None?
    ensures CompileAll(words).None?
  {
    if i > 0 {
      CompileAllFails(words[1..], i - 1);
    }
  }

  /** The grammar strings of the alternative lists, split at their bars. */
  const AttribOperatorWords: seq<string> :=
    ["PREFIXMATCH", "SUFFIXMATCH", "SUBSTRINGMATCH", "'='", "INCLUDES", "DASHMATCH"]
  const AttribValueWords: seq<string> := ["IDENT", "STRING"]
  const PseudoNameWords: seq<string> := ["IDENT", "functional_pseudo"]
  const ExpressionWords: seq<string> := ["PLUS", "'-'", "DIMENSION", "NUMBER", "STRING", "IDENT"]

  /** The term lists above are what the parser's grammar strings denote. */
  lemma AttribOperatorsCompiled()
    ensures CompileAll(AttribOperatorWords) == Some(AttribOperators)
  {
    var ws := AttribOperatorWords;
    assert Compile(ws[0]) == Some(AttribOperators[0]);
    assert Compile(ws[1]) == Some(AttribOperators[1]);
    assert Compile(ws[2]) == Some(AttribOperators[2]);
    assert Compile(ws[3]) == Some(AttribOperators[3]);
    assert Compile(ws[4]) == Some(AttribOperators[4]);
    assert Compile(ws[5]) == Some(AttribOperators[5]);
    CompilesTo(ws, AttribOperators);
  }

  lemma AttribValuesCompiled()
    ensures CompileAll(AttribValueWords) == Some(AttribValues)
  {
    var ws := AttribValueWords;
    assert Compile(ws[0]) == Some(AttribValues[0]);
    assert Compile(ws[1]) == Some(AttribValues[1]);
    CompilesTo(ws, AttribValues);
  }

  lemma PseudoNamesCompiled()
    ensures CompileAll(PseudoNameWords) == Some(PseudoNames)
  {
    var ws := PseudoNameWords;
    assert Compile(ws[0]) == Some(PseudoNames[0]);
    assert Compile(ws[1]) == Some(PseudoNames[1]);
    CompilesTo(ws, PseudoNames);
  }

  lemma ExpressionTermsCompiled()
    ensures CompileAll(ExpressionWords) == Some(ExpressionTerms)
  {
    var ws := ExpressionWords;
    assert Compile(ws[0]) == Some(ExpressionTerms[0]);
    assert Compile(ws[1]) == Some(ExpressionTerms[1]);
    assert Compile(ws[2]) == Some(ExpressionTerms[2]);
    assert Compile(ws[3]) == Some(ExpressionTerms[3]);
    assert Compile(ws[4]) == Some(ExpressionTerms[4]);
    assert Compile(ws[5]) == Some(ExpressionTerms[5]);
    CompilesTo(ws, ExpressionTerms);
  }

  /** `negation_arg` names "class", which is no production (the method is
      `_class`), so the list has no compiled form here. In the source the
      list never reaches dispatch, as it is handed over as a string where an
      array is required (CssParser.php:235); were it dispatched, the
      call_user_func of the unknown method `class` (CssParser.php:300) would
      only warn and fail that one term, not the whole list. */
  lemma NegationArgUncompilable()
    ensures Compile("class").None?
    ensures CompileAll(NegationArgWords).None?
  {
    assert NegationArgWords[3] == "class";
    CompileAllFails(NegationArgWords, 3);
  }

  /** Every word beginning with an underscore reads as a symbol, never as a
      production; "_class" is one of them. */
  lemma UnderscoreReadsAsSymbol()
    ensures forall w: string :: |w| > 0 && w[0] == '_' ==> Compile(w) == Some(Symbol(w))
    ensures Compile("_class") == Some(Symbol("_class"))
  {
  }

  /** The ranks the parser's calls need: every alternative list ranks below
      the production that uses it, and three of the lists hold no production. */
  lemma TermListRanks()
    ensures forall i :: 0 <= i < |AttribOperators| ==> TermRank(AttribOperators[i]) == 0
    ensures forall i :: 0 <= i < |AttribValues| ==> TermRank(AttribValues[i]) == 0
    ensures forall i :: 0 <= i < |ExpressionTerms| ==> TermRank(ExpressionTerms[i]) == 0
    ensures forall i :: 0 <= i < |PseudoNames| ==> TermRank(PseudoNames[i]) <= Rank(FunctionalPseudo)
    ensures forall i :: 0 <= i < |AttribOperators| ==> !AttribOperators[i].Production?
    ensures forall i :: 0 <= i < |AttribValues| ==> !AttribValues[i].Production?
    ensures forall i :: 0 <= i < |ExpressionTerms| ==> !ExpressionTerms[i].Production?
  {
  }

  predicate IsSymbol(tok: Token, name: string)
  {
    tok.Sym? && tok.name == name
  }

  /** A character or symbol term accepts the token; a production term is not
      one token and matches none. */
  predicate TermMatches(t: Term, tok: Token)
  {
    || (t.Char? && tok == Lit(t.c))
    || (t.Symbol? && IsSymbol(tok, t.name))
  }

  /** Some term of the list accepts the token. */
  predicate StartsAny(ts: seq<Term>, tok: Token)
  {
    exists i :: 0 <= i < |ts| && TermMatches(ts[i], tok)
  }

  /** The tokens a type selector, a universal selector or a namespace prefix
      can begin with. */
  predicate StartsName(tok: Token)
  {
    IsSymbol(tok, "IDENT") || tok == Lit('*') || tok == Lit('|')
  }

  /** The tokens one of the G1 alternatives can begin with. */
  predicate StartsG1(tok: Token)
  {
    IsSymbol(tok, "HASH") || tok == Lit('.') || tok == Lit('[') || tok == Lit(':') || IsSymbol(tok, "NOT")
  }

  /** The first-token set of each production: a production that succeeds
      began at a token of its set. The combinator stub has an empty set. */
  predicate CanStart(p: Prod, tok: Token)
  {
    match p
    case SelectorsGroup => StartsName(tok) || StartsG1(tok)
    case Selector => StartsName(tok) || StartsG1(tok)
    case Combinator => false
    case SimpleSelectorSequence => StartsName(tok) || StartsG1(tok)
    case SimpleSelectorSequenceG1 => StartsG1(tok)
    case TypeSelector => StartsName(tok)
    case NamespacePrefix => StartsName(tok)
    case ElementName => IsSymbol(tok, "IDENT")
    case Universal => StartsName(tok)
    case Class => tok == Lit('.')
    case Attrib => tok == Lit('[')
    case AttribG1 => StartsAny(AttribOperators, tok)
    case Pseudo => tok == Lit(':')
    case FunctionalPseudo => IsSymbol(tok, "FUNCTION")
    case Expression => StartsAny(ExpressionTerms, tok)
    case Negation => IsSymbol(tok, "NOT")
    case NegationArg => StartsName(tok) || IsSymbol(tok, "HASH") || tok == Lit('.') || tok == Lit('[') || tok == Lit(':')
  }

  /** What a term that succeeded began with. */
  predicate TermCanStart(t: Term, tok: Token)
  {
    if t.Production? then CanStart(t.p, tok) else TermMatches(t, tok)
  }
}
