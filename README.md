# XDOM CSS selector parser, modelled in Dafny

This project models `XDOM_CssParser`. It is a backtracking recursive-descent
recogniser for the `selectors_group` production of section 10 of the W3C
Selectors Level 3 recommendation. The parser is also a PHP `Iterator` over
the tokens of a string.

The model has four files:

- `tokens.dfy` (module `Tokens`): the tokens (`Lit`, `Sym`, `End`; PHP's
  NULL is `End`) and the tokenizer as a function value `Lexer`. `Sound` is the
  contract the parser relies on: a token found inside the string ends inside
  it, and a comment is never empty. `Skip` gives the offset the
  comment-skipping walk lands on. Two lemmas prove that every position inside
  a run of comments lands on the same token.
- `grammar.dfy` (module `Grammar`): a closed set of production identifiers
  (`Prod`) replaces the name-based `call_user_func` dispatch. `Rank` orders
  the productions, since no production reaches itself. `Classify` and
  `Compile` read a term word by its first character. The constant term lists
  replace the grammar strings, and lemmas prove that each list is what its
  string denotes. `CanStart` gives the tokens each production can begin
  with.
- `language.dfy` (module `Language`): the token words each production
  accepts, one predicate per production (`SelectorsGroupWord`,
  `AttribWord`, ...), read off the grammar comments in the source, and
  `Derives`, which names the predicate of a production. Lemmas prove that
  every word begins with a token of the production's first set, that the
  alternatives tried in order by `simple_selector_sequence`,
  `simple_selector_sequence_G1` and `pseudo` share no word, and that the
  flat reading of `expression` is its grammar `[ term S* ]+`.
- `parser.dfy` (module `Parser`): class `CssParser`. Its fields are those
  of the PHP object: `str`, `offset`, the single-slot memo
  `currentOffset`/`current`, the `cache` map and the depth counter `peek`.
  Every PHP method is a Dafny method: the cursor, the accept/expect
  dispatcher and every production. Each method says what it does to that
  state. A call ends in an `Outcome`:
  - `Ok(b)` is a PHP return value;
  - `ParseError(at)` is the `Exception` thrown by `error()` at depth 0;
  - `Malformed` is a fatal abort: the `UnexpectedValueException` of
    `next()`, or the type error `negation_arg` runs into.

A ghost field `trace` holds the tokens consumed so far, in order: each
advance of `next()` appends the token it steps over, `rewind()` empties it,
and the seek back of a failed `acceptP` takes back what the attempt read.
Every production states, on success, that what it added to `trace` is a
word of its grammar (`Language.Derives`); the helper methods state the
word of their stretch of the body. `Parse` then states that a successful
parse consumed a `selectors_group` word.

Every recursive call of the productions is ordered by the input left to read
(`|str| - offset`), then the production's `Rank`, then the dispatch layer.
A few production bodies are split into helper methods (`NextSelector`,
`RepeatG1`, `SimpleSelectorSequenceG1Rest`, `NamespaceName`, `AttribName`,
`AttribClose`, `AttribValue`, `PseudoRest`, `PseudoName`, `FunctionArgs`,
`ExpressionRepeat`, `ExpressionNext`, `NegationBody`, `NegationClose`). Each helper runs one
stretch of the PHP body unchanged and ranks between its caller and the
productions it runs.

A ghost flag `slotCleared` records that `next()` emptied the slot without
moving it. `Fresh` says the slot does not name the current offset in that
emptied state; then `current()` answers the token really read at the offset
(`Resolve`). Every production and dispatcher method needs `Fresh` and keeps
it on a normal return. `Rewind` establishes it, so it holds for a whole
`parse()`. Each production's contract then states, in terms of the real
token at its start:

- success consumes input and began with a token of the production's first
  set (`Grammar.CanStart`);
- a plain failure leaves the slot either harmless for a seek back to the
  start, or exactly as it was before the attempt (`Restorable`).

So the backtracking of `acceptP` never exposes the emptied slot.

The model keeps the source's quirks as written:

- `combinator` always fails.
- `negation` fails when `)` is there, and succeeds only when the token after
  the spaces is not `)`.
- `expression` expects each term, so a missing first term throws at depth 0.
- `negation_arg` aborts.
- `isset()` treats a cached End as absent, so End is fetched again.
- The single-slot memo of `current()` can answer End for a real token:
  `next()` clears `current` but leaves `currentOffset`, so seeking back to
  the token just read gives End. `SlotGapWitness` shows this on the string
  "ab". Within a parse this state is never met (see `Fresh` above).
- The slot also records the offset before the comment skip. Seeking back to
  that offset makes `current()` answer the token from the slot without
  stepping over the comments again, so `next()` advances from in front of
  the comments. `CommentGapWitness` shows a token read twice on "/ab", where
  '/' is a comment. This one can arise in a parse: `acceptP` seeks back to
  such an offset after an attempt that read only the first token. The
  contracts allow for it through `UpcomingOffset`.

Three behaviours of the code worth noting:

- An exception inside `acceptP` skips `peek--`, because there is no
  `finally`. The depth is therefore only balanced on a normal return.
- `expectP` reports its error after restoring the offset. The message calls
  `current()` first, though, and that call may step over comments, so the
  offset reported is the restored one only when comments are not skipped.
- A cached End is not reused.

## Model

| member | source | states |
|---|---|---|
| Tokens.Skip | src/XDOM/CssParser.php:367-376 | the comment-skipping walk lands at or after its start, inside the string, on a token that is not a comment |
| Tokens.SkipCrossesComments | src/XDOM/CssParser.php:369-374 | the walk only steps over comment tokens |
| Tokens.SkipSameAcrossRun | src/XDOM/CssParser.php:369-374 | every position inside a run of comments lands on the same token, so comments in front of a token do not change what is read |
| Tokens.SkipIdempotent | src/XDOM/CssParser.php:347-360 | reading again from where a read landed lands in the same place |
| Grammar.ProdNamed | src/XDOM/CssParser.php:300 | a method name dispatches only to the production of that name |
| Grammar.ProdNamedInverse | src/XDOM/CssParser.php:300 | every production is reached under its own method name |
| Grammar.Classify | src/XDOM/CssParser.php:282-292 | a quote starts a character term, a lower-case letter starts a production, every other first character a symbol |
| Grammar.Compile | src/XDOM/CssParser.php:282-292 | the term a word stands for: the character after the quote, the word as a symbol name, or the production of that name; nothing for an unknown production name |
| Grammar.CompileAll | src/XDOM/CssParser.php:247-257 | an alternative list compiles word by word, in order, or not at all if one word names nothing |
| Grammar.CompilesTo | src/XDOM/CssParser.php:247-257 | a list whose words each compile to a term compiles to exactly those terms |
| Grammar.CompileAllFails | src/XDOM/CssParser.php:247-257 | a list with one word that names nothing has no compiled form; with `CompileAll`'s own contract, a list compiles iff every word does |
| Grammar.AttribOperatorsCompiled | src/XDOM/CssParser.php:187 | the operator list of `attrib_G1` is what its grammar string denotes |
| Grammar.AttribValuesCompiled | src/XDOM/CssParser.php:189 | the value list of `attrib_G1` is what its grammar string denotes |
| Grammar.PseudoNamesCompiled | src/XDOM/CssParser.php:198 | the list of `pseudo` is IDENT then the `functional_pseudo` production |
| Grammar.ExpressionTermsCompiled | src/XDOM/CssParser.php:215 | the term list of `expression` is what its grammar string denotes |
| Grammar.NegationArgUncompilable | src/XDOM/CssParser.php:233-236 | the list `negation_arg` names contains "class", which names no production (the method is `_class`), so the list has no compiled form |
| Grammar.UnderscoreReadsAsSymbol | src/XDOM/CssParser.php:288 | every word whose first character is an underscore, "_class" among them, compiles to the symbol of that same word, never to a production |
| Grammar.TermListRanks | src/XDOM/CssParser.php:185-221 | every term of those lists ranks below the production that uses the list, so no production reaches itself; the operator, value and expression lists hold no production |
| Language.SelectorWordStarts | src/XDOM/CssParser.php:87-98 | every selector word begins with a token that can start a type selector, a universal selector or a G1 part |
| Language.SelectorsGroupWordStarts | src/XDOM/CssParser.php:72-85 | every selectors_group word begins with a token that can start a selector |
| Language.SimpleSelectorSequenceWordStarts | src/XDOM/CssParser.php:106-119 | every simple_selector_sequence word begins with a token that can start its head |
| Language.DerivesStartsRight | src/XDOM/CssParser.php:72-236 | every word of a production (the combinator stub aside) is non-empty and begins with a token of the production's first set `CanStart` |
| Language.SelectorJoin | src/XDOM/CssParser.php:93-96 | a selector, a combinator and a simple selector sequence in a row form a selector |
| Language.SelectorsGroupJoin | src/XDOM/CssParser.php:78-83 | a selectors_group followed by COMMA S* selector is a selectors_group |
| Language.SimpleSelectorSequenceJoin | src/XDOM/CssParser.php:113-117 | a type selector, universal selector or G1 part followed by G1 parts is a simple selector sequence |
| Language.G1StarJoin | src/XDOM/CssParser.php:117 | G1 parts followed by one more G1 part are G1 parts |
| Language.HeadAlternativesDisjoint | src/XDOM/CssParser.php:113-115 | no word is both a type selector and a universal selector, and neither is a G1 word |
| Language.G1AlternativesDisjoint | src/XDOM/CssParser.php:121-130 | of HASH, class, attrib, pseudo and negation, each alternative excludes every later one: at most one derives a given word |
| Language.PseudoNameIdentAlone | src/XDOM/CssParser.php:198 | a pseudo name that begins with IDENT is that one token, so IDENT, tried first, never competes with functional_pseudo |
| Language.ExpressionWordIsRounds | src/XDOM/CssParser.php:212-221 | the flat reading of `expression` (a term, then terms and spaces) accepts exactly the words of `[ term S* ]+` |
| Language.RoundsThenSpace | src/XDOM/CssParser.php:218 | a space after some rounds of `expression` extends the last round |
| Parser.CssParser.constructor | src/XDOM/CssParser.php:51-54 | a fresh cursor: empty string, offset and slot offset equal, so `current()` answers End; comments are skipped; nothing consumed |
| Parser.CssParser.SetString | src/XDOM/CssParser.php:59-63 | loads the string and resets the cursor: depth 0, slot offset -1, slot End, empty cache, offset 0, nothing consumed |
| Parser.CssParser.Rewind | src/XDOM/CssParser.php:383-390 | depth 0, slot offset -1, slot End, empty cache, offset 0, string kept, nothing consumed |
| Parser.CssParser.Seek | src/XDOM/CssParser.php:392-395 | sets the offset and changes nothing else |
| Parser.CssParser.Key | src/XDOM/CssParser.php:378-381 | answers the offset |
| Parser.CssParser.Fetch | src/XDOM/CssParser.php:362-365 | one tokenizer call at the offset |
| Parser.CssParser.FetchSkipping | src/XDOM/CssParser.php:367-376 | moves the offset past the run of comments and returns the token found there |
| Parser.CssParser.Refill | src/XDOM/CssParser.php:352-358 | with no slot or cache entry for the offset: the slot takes the offset asked at and the token read from it, the offset moves past the comments, and the cache gains that token under the landing offset |
| Parser.CssParser.Current | src/XDOM/CssParser.php:347-360 | answers the upcoming token and moves the offset to where it starts; never a comment when skipping; the cache gains it under the landing offset unless the slot answered; the slot records the offset asked at; a following call answers the same token without calling the tokenizer, unless that token is End; from a `Fresh` state the answer is the token really read at the offset |
| Parser.CssParser.Next | src/XDOM/CssParser.php:402-415 | at End only reads; otherwise advances by the token's byte length, clears the slot and appends the token to the consumed tokens; an empty token is fatal whatever the depth; the cache gains the token read when the slot did not answer, and nothing when it did; keeps `Fresh` |
| Parser.CssParser.IsValid | src/XDOM/CssParser.php:397-400 | true iff the upcoming token is not End; consumes nothing |
| Parser.CssParser.Error | src/XDOM/CssParser.php:238-245 | throws at the current offset iff the depth is 0, and is a plain failure otherwise |
| Parser.CssParser.Accept | src/XDOM/CssParser.php:330-338 | matches iff the real upcoming token is a symbol of that name; on success exactly that token is consumed; on failure only comments are passed, the upcoming token is unchanged and nothing is consumed |
| Parser.CssParser.AcceptC | src/XDOM/CssParser.php:315-321 | matches iff the real upcoming token is that literal character; consumes exactly that one-byte token on success, and only comments on failure |
| Parser.CssParser.Expect | src/XDOM/CssParser.php:340-345 | as Accept; a mismatch throws at depth 0 at the offset of the unexpected token, and is silent inside a speculative attempt |
| Parser.CssParser.ExpectC | src/XDOM/CssParser.php:323-328 | as AcceptC; a mismatch throws at depth 0 and is silent inside a speculative attempt |
| Parser.CssParser.SkipSpaces | src/XDOM/CssParser.php:81 | every token it consumes is an S symbol, and on a normal end the upcoming token is not S; can only end normally or on an empty token |
| Parser.CssParser.AcceptP | src/XDOM/CssParser.php:296-306 | on failure the offset is back where it was, the upcoming token and the consumed tokens are unchanged and the slot is restorable; on a normal return the depth is as before; success consumed a word of the production, beginning with a token of its first set; never throws a parse error |
| Parser.CssParser.Deepen | src/XDOM/CssParser.php:299-301 | the depth moves by the step and nothing else changes |
| Parser.CssParser.Restore | src/XDOM/CssParser.php:302-304 | the offset and the consumed tokens are as they were when the attempt began |
| Parser.CssParser.ExpectP | src/XDOM/CssParser.php:308-313 | as AcceptP; failure throws at depth 0 and is silent deeper; the error offset is the offset before the attempt or where reading from it lands past the comments |
| Parser.CssParser.Run | src/XDOM/CssParser.php:300 | dispatches to the production; a parse error only at depth 0; success consumed a word of the production |
| Parser.CssParser.AcceptTerm | src/XDOM/CssParser.php:282-294 | a character or symbol term succeeds iff the upcoming token matches it; a failed production term leaves the offset and the consumed tokens unchanged; success consumed a word of the term |
| Parser.CssParser.AcceptAny | src/XDOM/CssParser.php:247-273 | ordered choice: terms are tried left to right and the first success ends it; no character or symbol term before the winner matched; the winner began with a token it can start with and consumed one of its words; if the first term matches, no other term is tried |
| Parser.CssParser.ExpectAny | src/XDOM/CssParser.php:260-280 | ordered choice as AcceptAny, including that no character or symbol term before the winner matched; when no term matches (no character or symbol term of the list accepts the token) it throws at depth 0 and fails silently deeper, consuming nothing |
| Parser.CssParser.Parse | src/XDOM/CssParser.php:65-70 | either throws (parse error or abort) or succeeds with the upcoming token End, having consumed a selectors_group word, and the first real token of the string can start one; it never returns a plain failure, and an empty input (only comments) always throws |
| Parser.CssParser.SelectorsGroup | src/XDOM/CssParser.php:72-85 | at depth 0 it cannot fail silently; success consumed a selectors_group word and leaves the cursor at End, so a trailing token other than COMMA throws |
| Parser.CssParser.NextSelector | src/XDOM/CssParser.php:80-82 | success consumed COMMA, then S symbols, then a selector word; a plain failure only inside a speculative attempt |
| Parser.CssParser.Selector | src/XDOM/CssParser.php:87-98 | success consumed a selector word: a simple selector sequence, then combinator and sequence pairs |
| Parser.CssParser.Combinator | src/XDOM/CssParser.php:100-104 | always fails and touches nothing |
| Parser.CssParser.SimpleSelectorSequence | src/XDOM/CssParser.php:106-119 | success consumed a type selector, a universal selector or a G1 part, followed by any number of G1 parts |
| Parser.CssParser.RepeatG1 | src/XDOM/CssParser.php:117 | what it consumed is a run of G1 parts; ends normally or on an abort, never with a plain failure or a parse error |
| Parser.CssParser.SimpleSelectorSequenceG1 | src/XDOM/CssParser.php:121-130 | success consumed one HASH, class, attrib, pseudo or negation word |
| Parser.CssParser.SimpleSelectorSequenceG1Rest | src/XDOM/CssParser.php:126-129 | success began at '[', ':' or NOT and consumed an attrib, pseudo or negation word |
| Parser.CssParser.TypeSelector | src/XDOM/CssParser.php:132-137 | success consumed an optional namespace prefix and then the IDENT of the element name |
| Parser.CssParser.NamespacePrefix | src/XDOM/CssParser.php:139-143 | succeeds iff the real upcoming token is '|', or it is '*' or a non-empty IDENT followed by '|'; success consumed that prefix, ending with the '|' |
| Parser.CssParser.NamespaceName | src/XDOM/CssParser.php:141 | succeeds iff the real upcoming token is '*' or a non-empty IDENT, and then consumed exactly it; an empty IDENT aborts; otherwise nothing is consumed |
| Parser.CssParser.ElementName | src/XDOM/CssParser.php:145-148 | succeeds iff the real upcoming token is a non-empty IDENT, and then consumed exactly that token |
| Parser.CssParser.Universal | src/XDOM/CssParser.php:150-154 | success consumed an optional namespace prefix and then '*' |
| Parser.CssParser.Class | src/XDOM/CssParser.php:156-161 | succeeds iff the real upcoming token is '.' and the token after it a non-empty IDENT; success consumed those two tokens |
| Parser.CssParser.Attrib | src/XDOM/CssParser.php:163-183 | success consumed '[', S symbols, an optional namespace prefix, the IDENT, S symbols, an optional operator-and-value part and the closing ']' |
| Parser.CssParser.AttribName | src/XDOM/CssParser.php:175-177 | success consumed S symbols, an optional namespace prefix and the IDENT; a plain failure leaves the slot filled |
| Parser.CssParser.AttribClose | src/XDOM/CssParser.php:178-180 | success consumed S symbols, an optional operator-and-value part and the closing ']' |
| Parser.CssParser.AttribG1 | src/XDOM/CssParser.php:185-192 | success consumed one operator, S symbols, one IDENT or STRING, and S symbols |
| Parser.CssParser.AttribValue | src/XDOM/CssParser.php:188-191 | success consumed S symbols, one IDENT or STRING, and S symbols; a plain failure leaves the slot filled or at or after the start |
| Parser.CssParser.Pseudo | src/XDOM/CssParser.php:194-201 | success consumed ':', an optional second ':', then an IDENT or a functional_pseudo word |
| Parser.CssParser.PseudoRest | src/XDOM/CssParser.php:197-198 | success consumed an optional ':' and then an IDENT or a functional_pseudo word; when the token after the optional ':' is IDENT, success consumed the ':' if present and then exactly one IDENT token, so functional_pseudo was not taken |
| Parser.CssParser.PseudoName | src/XDOM/CssParser.php:198 | success consumed an IDENT or a functional_pseudo word; when the next token is IDENT, success consumed exactly one IDENT token |
| Parser.CssParser.FunctionalPseudo | src/XDOM/CssParser.php:203-210 | success consumed FUNCTION, S symbols, an expression word and the closing ')' |
| Parser.CssParser.FunctionArgs | src/XDOM/CssParser.php:206-208 | success consumed S symbols, an expression word and the closing ')' |
| Parser.CssParser.Expression | src/XDOM/CssParser.php:212-221 | succeeds only if at least one term matched, and then consumed an expression word |
| Parser.CssParser.ExpressionRepeat | src/XDOM/CssParser.php:215-219 | never a plain failure; what it consumed is terms and S symbols only |
| Parser.CssParser.ExpressionNext | src/XDOM/CssParser.php:215-219 | success consumed S symbols and then exactly one term of the list; a plain failure consumed S symbols only |
| Parser.CssParser.Negation | src/XDOM/CssParser.php:223-231 | can succeed only inside a speculative attempt, and then consumed NOT, S symbols, a negation_arg word and S symbols, with the next token not ')' |
| Parser.CssParser.NegationBody | src/XDOM/CssParser.php:226-229 | success consumed S symbols, a negation_arg word and S symbols, with the next token not ')' |
| Parser.CssParser.NegationClose | src/XDOM/CssParser.php:228-230 | the inverted test: success consumed S symbols only and the next token is neither ')' nor S; a plain failure stepped over a ')' |
| Parser.CssParser.NegationArg | src/XDOM/CssParser.php:233-236 | always a fatal abort |
| Parser.SlotGapWitness | src/XDOM/CssParser.php:402-415 | on "ab": `current()` gives 'a'; after `next()` and a seek back to 0, `current()` gives End |
| Parser.CommentGapWitness | src/XDOM/CssParser.php:347-351 | on "/ab" with '/' a comment: after a read and a seek back to 0, `current()` answers 'a' from the slot, and after `next()` it answers 'a' again instead of 'b' |

## Left out

- The tokenizer (`XDOM_Tokenizer`, a regex lexer) is not part of this model. It is the `lex` function given to the constructor, and only its contract `Sound` is assumed.
- Exception messages (`sprintf`, `print_r`, `str_replace`) are not modelled. Only the error kind and the offset are kept.
- Splitting grammar strings at run time (`preg_split`, `trim`) is replaced by constant term lists, so the "Empty term" and "Invalid term" exceptions cannot arise. The `...Compiled` lemmas tie each list to its string.
- `call_user_func` is replaced by `Run` over the closed `Prod` set. PHP's case-insensitive method names and its warning for an unknown callback are not modelled.
- `each()` and the array's internal pointer are replaced by an index loop.
- Literal matching is byte-level in the source, so one `char` stands for one byte. No UTF-8 is modelled.
- `ignore` is a constant that is always true. The `currentFetch` branch is still modelled for the case where it is false.
- Seek: requires the position to lie within the string, because the tokenizer contract is only defined there. PHP accepts any value.
- Parse: returns the outcome of `selectors_group`, where PHP discards it. A throw in PHP is a `ParseError` or `Malformed` outcome here.
- Selector: the contract does not state that exactly one simple selector sequence is consumed; the combinator word is left unconstrained beyond being non-empty (`CombinatorWord`). The speculative-call contract is kept generic over productions, so that the dead loop body is never assumed away. `Combinator`'s own contract states that it always fails.
- Negation: the contract does not state that it never succeeds. It cannot, because `negation_arg` aborts first and the contract of the call is generic. `NegationArg`'s own contract states the abort.
- AcceptAny: ordered choice is stated by the count of terms tried, by no earlier character or symbol term matching, and by the first term winning when it matches. It does not state that every earlier production term failed.
- SimpleSelectorSequence: the contract does not state that type_selector is tried before universal. `HeadAlternativesDisjoint` proves only that no word belongs to both; that alone does not settle the order, because "ns" is a type-selector word and a prefix of the universal word "ns|*". What settles it, argued here and not proved, is that both productions begin with the same greedy `acceptP('namespace_prefix')` (CssParser.php:134 and :152), which reads the same prefix from the same position; after it type_selector needs IDENT and universal needs '*', so at most one of them succeeds from a given position.
- SimpleSelectorSequenceG1: the contract does not state the order HASH, class, attrib, pseudo, negation. `G1AlternativesDisjoint` proves that at most one alternative derives a word. The alternatives also begin with different tokens (HASH, '.', '[', ':', NOT, each stated by its production's `CanStart` clause), so at most one of them can succeed from a given position.
- SimpleSelectorSequenceG1Rest: the order attrib, pseudo, negation is not stated, for the same reason as for SimpleSelectorSequenceG1.
- Pseudo: the contract does not state that IDENT is tried before functional_pseudo. `PseudoRest` and `PseudoName` state it: when the name token is IDENT, exactly that one token is consumed as the name.
- PseudoRest: the IDENT consumed is stated to be an IDENT token, not to be equal to the token read at that offset.
- RepeatG1: where the repetition stops is not stated, only that what it consumed is a run of G1 parts. A G1 attempt can fail on a token that can begin a G1 part, so no token-level stop condition holds.
- TypeSelector: there is no if-and-only-if over the string, only the word consumed on success. It would have to follow the backtracking of the optional prefix.
- Universal: there is no if-and-only-if over the string, only the word consumed on success, for the same reason as for TypeSelector.
- Concrete parse outcomes such as "div", "div p", "div, p" or "[title=]" are not proved.
- Comment transparency is proved at the cursor level (`SkipSameAcrossRun`). It is not proved for the outcome of a whole parse, and the comment gap that `CommentGapWitness` shows at the cursor level stands in its way.
