/**
 * Tokens as the selector tokenizer hands them to the parser, the contract the
 * parser relies on, and the comment-skipping walk of the cursor.
 */
module Tokens {

  /** A token: a literal character, a named symbol with its lexeme, or the end
      of input (the tokenizer's NULL). */
  datatype Token = Lit(c: char) | Sym(name: string, lexeme: string) | End

  /** The symbol name the tokenizer gives to comments. */
  const CommentName: string := "/* ignore comments */"

  predicate IsComment(t: Token)
  {
    t.Sym? && t.name == CommentName
  }

  /** Number of bytes `next()` advances over this token. */
  function Len(t: Token): nat
  {
    match t
    case Lit(_) => 1
    case Sym(_, lexeme) => |lexeme|
    case End => 0
  }

  /** The tokenizer: the token that starts at a byte offset of a string. */
  type Lexer = (string, int) -> Token

  /** What the parser assumes of the tokenizer: a token found inside the
      string ends inside it, and a comment is never empty (the comment-skipping
      loop would not end otherwise). Other empty symbols are allowed: `next()`
      rejects them. */
  ghost predicate Sound(lex: Lexer)
  {
    forall s: string, k: int {:trigger lex(s, k)} :: 0 <= k <= |s| ==>
      k + Len(lex(s, k)) <= |s| && (IsComment(lex(s, k)) ==> Len(lex(s, k)) > 0)
  }

  /** The offset of the first token at or after `k` that is not a comment. */
  function Skip(lex: Lexer, s: string, k: int): (r: int)
    requires Sound(lex) && 0 <= k <= |s|
    ensures k <= r <= |s|
    ensures !IsComment(lex(s, r))
    decreases |s| - k
  {
    var t := lex(s, k);
    if IsComment(t) then Skip(lex, s, k + Len(t)) else k
  }

  /** `j` is reached from `k` by stepping over zero or more comment tokens. */
  ghost predicate OverComments(lex: Lexer, s: string, k: int, j: int)
    requires Sound(lex) && 0 <= k <= |s|
    decreases |s| - k
  {
    k == j || (IsComment(lex(s, k)) && OverComments(lex, s, k + Len(lex(s, k)), j))
  }

  /** The skip only steps over comments. */
  lemma {:induction false} SkipCrossesComments(lex: Lexer, s: string, k: int)
    requires Sound(lex) && 0 <= k <= |s|
    ensures OverComments(lex, s, k, Skip(lex, s, k))
    decreases |s| - k
  {
    var t := lex(s, k);
    if IsComment(t) {
      SkipCrossesComments(lex, s, k + Len(t));
    }
  }

  /** Every position inside a run of comments lands on the same token:
      comments in front of a token do not change which token is read. */
  lemma {:induction false} SkipSameAcrossRun(lex: Lexer, s: string, k: int, j: int)
    requires Sound(lex) && 0 <= k <= |s|
    requires OverComments(lex, s, k, j)
    ensures k <= j <= |s|
    ensures Skip(lex, s, j) == Skip(lex, s, k)
    decreases |s| - k
  {
    if k != j {
      SkipSameAcrossRun(lex, s, k + Len(lex(s, k)), j);
    }
  }

  /** Skipping from where a skip landed stays there. */
  lemma SkipIdempotent(lex: Lexer, s: string, k: int)
    requires Sound(lex) && 0 <= k <= |s|
    ensures Skip(lex, s, Skip(lex, s, k)) == Skip(lex, s, k)
  {
  }
}
