/**
 * The CSS Level 3 selector recogniser: a token cursor over a string (the
 * iterator part), the accept/expect term dispatcher with its peek depth, and
 * the backtracking productions of the `selectors_group` grammar.
 */
module Parser {
  import opened Tokens
  import G = Grammar
  import L = Language

  /** How a call ends: a boolean result, a parse error thrown at an offset, or
      a fatal abort (an empty token in `next()`, or the type error of
      `negation_arg`). */
  datatype Outcome = Ok(b: bool) | ParseError(at: int) | Malformed

  class CssParser {
    /** The tokenizer. */
    const lex: Lexer
    /** Skip comment tokens when reading the current token. */
    const ignore: bool

    var str: string
    var offset: int
    /** The single-slot memo of `current()`: the offset it was last asked at
        and what it answered there (End also stands for "cleared"). */
    var currentOffset: int
    var current: Token
    /** Tokens already read, by the offset they start at. */
    var cache: map<int, Token>
    /** Depth of speculative attempts; errors are thrown only at depth 0. */
    var peek: int
    /** Number of tokenizer calls made so far. */
    ghost var fetches: nat
    /** `next()` emptied the slot without moving it: the slot still names an
        offset but holds End instead of the token read there. */
    ghost var slotCleared: bool
    /** The tokens consumed so far, in order: each advance of `next()` adds
        the token it steps over, and a failed speculative attempt takes back
        what it read. */
    ghost var trace: seq<Token>

    /** Where reading from `k` lands: past the comments when ignoring them. */
    ghost function Landing(s: string, k: int): (r: int)
      requires Sound(lex) && 0 <= k <= |s|
      ensures k <= r <= |s|
      ensures ignore ==> !IsComment(lex(s, r))
    {
      if ignore then Skip(lex, s, k) else k
    }

    /** The token read from `k`. */
    ghost function Resolve(s: string, k: int): Token
      requires Sound(lex) && 0 <= k <= |s|
    {
      lex(s, Landing(s, k))
    }

    ghost predicate Valid()
      reads this
    {
      && Sound(lex)
      && 0 <= offset <= |str|
      && 0 <= peek
      && (forall k :: k in cache ==>
            0 <= k <= |str| && cache[k] == lex(str, k) && (ignore ==> !IsComment(cache[k])))
      && (if slotCleared then current == End
          else if 0 <= currentOffset <= |str| then current == Resolve(str, currentOffset)
          else current == End)
    }

    /** What `current()` answers in this state. */
    ghost function Upcoming(): Token
      reads this
      requires Valid()
    {
      if offset == currentOffset then current else Resolve(str, offset)
    }

    /** Where `offset` stands after `current()` in this state. */
    ghost function UpcomingOffset(): (r: int)
      reads this
      requires Valid()
      ensures offset <= r <= |str|
    {
      if offset == currentOffset then offset else Landing(str, offset)
    }

    /** `current()` answers the token really read at the offset: the slot
        names another offset, or it was not emptied by `next()`. */
    ghost predicate Fresh()
      reads this`offset, this`currentOffset, this`slotCleared
    {
      currentOffset == offset ==> !slotCleared
    }

    /** Seeking back to `k` keeps `current()` right: the slot holds its
        token or lies beyond `k`. */
    ghost predicate SlotBeyond(k: int)
      reads this`currentOffset, this`slotCleared
    {
      !slotCleared || currentOffset > k
    }

    /** What a failed attempt that started at `k`, with the slot at `slot`
        and emptied or not as `held` says, leaves behind: a slot that is
        harmless at `k`, or the slot as it was. */
    ghost predicate Restorable(k: int, slot: int, held: bool)
      reads this`currentOffset, this`slotCleared
    {
      SlotBeyond(k) || (currentOffset == slot && slotCleared == held)
    }

    /** `current()` answers without calling the tokenizer. */
    ghost predicate Ready()
      reads this
    {
      offset == currentOffset || (offset in cache && cache[offset] != End)
    }

    /** A cursor before any string is loaded: the offset and the slot offset
        are equal, so `current()` answers End. */
    constructor (lex: Lexer)
      requires Sound(lex)
      ensures Valid() && this.lex == lex && ignore
      ensures str == "" && offset == 0 && currentOffset == 0 && current == End
      ensures cache == map[] && peek == 0 && trace == []
    {
      this.lex := lex;
      ignore := true;
      str := "";
      offset := 0;
      currentOffset := 0;
      current := End;
      cache := map[];
      peek := 0;
      fetches := 0;
      slotCleared := true;
      trace := [];
    }

    method SetString(s: string)
      requires Valid()
      modifies this
      ensures Valid() && str == s && trace == []
      ensures peek == 0 && currentOffset == -1 && current == End && cache == map[] && offset == 0
    {
      str := s;
      Rewind();
    }

    method Rewind()
      requires Sound(lex)
      modifies this
      ensures Valid() && str == old(str) && fetches == old(fetches) && trace == []
      ensures peek == 0 && currentOffset == -1 && current == End && cache == map[] && offset == 0
    {
      peek := 0;
      trace := [];
      currentOffset := -1;
      current := End;
      slotCleared := false;
      cache := map[];
      Seek(0);
    }

    method Seek(position: int)
      requires 0 <= position <= |str|
      modifies this`offset
      ensures offset == position
    {
      offset := position;
    }

    method Key() returns (k: int)
      ensures k == offset
    {
      k := offset;
    }

    method Fetch() returns (t: Token)
      modifies this`fetches
      ensures t == lex(str, offset) && fetches == old(fetches) + 1
    {
      t := lex(str, offset);
      fetches := fetches + 1;
    }

    /** Reads tokens from the offset on, stepping over comments. */
    method FetchSkipping() returns (t: Token)
      requires Sound(lex) && 0 <= offset <= |str|
      modifies this`offset, this`fetches
      ensures offset == Skip(lex, str, old(offset)) && t == lex(str, offset)
      ensures fetches > old(fetches)
    {
      var s, k := str, offset;
      t := lex(s, k);
      fetches := fetches + 1;
      while IsComment(t)
        invariant old(offset) <= k <= |s|
        invariant Skip(lex, s, k) == Skip(lex, s, old(offset))
        invariant t == lex(s, k)
        invariant fetches > old(fetches)
        decreases |s| - k
      {
        k := k + Len(t);
        t := lex(s, k);
        fetches := fetches + 1;
      }
      offset := k;
    }

    /** Neither the slot nor the cache has a token for the offset: read it
        from the tokenizer, fill the slot and remember it in the cache. */
    method Refill()
      requires Valid() && !Ready()
      modifies this
      ensures Valid() && str == old(str) && peek == old(peek) && trace == old(trace)
      ensures currentOffset == old(offset) && offset == Landing(str, currentOffset)
      ensures current == Resolve(str, currentOffset) && !slotCleared
      ensures cache == old(cache)[offset := current]
    {
      var k := offset;
      var t;
      if ignore {
        t := FetchSkipping();
        SkipIdempotent(lex, str, k);
      } else {
        t := Fetch();
      }
      assert offset == Landing(str, k) == Landing(str, offset) && t == Resolve(str, k);
      currentOffset := k;
      current := t;
      slotCleared := false;
      cache := cache[offset := t];
    }

    method Current() returns (t: Token)
      requires Valid()
      modifies this
      ensures Valid() && str == old(str) && peek == old(peek) && trace == old(trace)
      ensures t == old(Upcoming()) && offset == old(UpcomingOffset())
      ensures current == t && currentOffset == old(offset)
      ensures offset == currentOffset || offset == Landing(str, currentOffset)
      ensures Upcoming() == t && UpcomingOffset() == offset
      ensures ignore ==> !IsComment(t)
      ensures old(offset) == old(currentOffset) ==> cache == old(cache)
      ensures old(offset) != old(currentOffset) ==> cache == old(cache)[offset := t]
      ensures old(Ready()) ==> cache == old(cache) && fetches == old(fetches)
      ensures t != End ==> Ready()
      ensures old(Fresh()) ==> !slotCleared && Resolve(str, offset) == t == old(Resolve(str, offset))
    {
      if offset == currentOffset {
        return current;
      }
      if offset in cache && cache[offset] != End {
        currentOffset := offset;
        current := cache[offset];
        slotCleared := false;
        assert Landing(str, offset) == offset;
        assert cache == cache[offset := current];
      } else {
        Refill();
        assert Landing(str, offset) == offset;
      }
      t := current;
    }

    method Next() returns (ok: bool)
      requires Valid()
      modifies this
      ensures Valid() && str == old(str) && peek == old(peek)
      ensures ok <==> old(Upcoming()) == End || Len(old(Upcoming())) > 0
      ensures offset == if old(Upcoming()) != End && Len(old(Upcoming())) > 0
                        then old(UpcomingOffset()) + Len(old(Upcoming()))
                        else old(UpcomingOffset())
      ensures trace == if old(Upcoming()) != End && Len(old(Upcoming())) > 0
                       then old(trace) + [old(Upcoming())]
                       else old(trace)
      ensures currentOffset == old(offset)
      ensures ok && old(Upcoming()) != End ==> current == End
      ensures !ok || old(Upcoming()) == End ==> Upcoming() == old(Upcoming())
      ensures old(Fresh()) ==> Fresh()
      ensures old(offset) == old(currentOffset) ==> cache == old(cache)
      ensures old(offset) != old(currentOffset) ==> cache == old(cache)[old(UpcomingOffset()) := old(Upcoming())]
      ensures old(Ready()) ==> cache == old(cache) && fetches == old(fetches)
    {
      var t := Current();
      if t == End {
        return true;
      }
      var length := Len(t);
      if length == 0 {
        return false;
      }
      current := End;
      slotCleared := true;
      offset := offset + length;
      trace := trace + [t];
      ok := true;
    }

    /** The iterator's `valid()`: there is a token to read. */
    method IsValid() returns (b: bool)
      requires Valid()
      modifies this
      ensures Valid() && str == old(str) && peek == old(peek)
      ensures b <==> old(Upcoming()) != End
      ensures trace == old(trace)
      ensures offset == old(UpcomingOffset()) && Upcoming() == old(Upcoming())
      ensures old(Fresh()) ==> !slotCleared && Resolve(str, offset) == old(Resolve(str, offset))
    {
      var t := Current();
      b := t != End;
    }

    /** Throws at depth 0; inside a speculative attempt the failure stays a
        plain FALSE. */
    method Error() returns (r: Outcome)
      ensures r.ParseError? <==> peek == 0
      ensures r.ParseError? ==> r.at == offset
      ensures !r.ParseError? ==> r == Ok(false)
    {
      if peek == 0 {
        return ParseError(offset);
      }
      return Ok(false);
    }

    /** Matches the current token against a symbol name. */
    method Accept(name: string) returns (r: Outcome)
      requires Valid() && Fresh()
      modifies this
      ensures Valid() && str == old(str) && peek == old(peek) && offset >= old(offset)
      ensures currentOffset >= old(offset)
      ensures r == Ok(true) || r == Ok(false) || r == Malformed
      ensures r != Ok(false) <==> G.IsSymbol(old(Resolve(str, offset)), name)
      ensures r == Ok(false) ==> offset == old(UpcomingOffset()) == UpcomingOffset()
      ensures r == Ok(false) ==> Resolve(str, offset) == old(Resolve(str, offset)) && !slotCleared
      ensures r == Ok(true) ==> Len(old(Resolve(str, offset))) > 0
                                && offset == old(UpcomingOffset()) + Len(old(Resolve(str, offset)))
      ensures r == Ok(true) ==> Fresh()
      ensures r == Malformed ==> Len(old(Resolve(str, offset))) == 0
      ensures r == Ok(true) ==> trace == old(trace) + [old(Resolve(str, offset))]
      ensures r != Ok(true) ==> trace == old(trace)
    {
      var t := Current();
      if !(t.Sym? && t.name == name) {
        return Ok(false);
      }
      var ok := Next();
      r := if ok then Ok(true) else Malformed;
    }

    /** Matches the current token against a literal character. */
    method AcceptC(c: char) returns (r: Outcome)
      requires Valid() && Fresh()
      modifies this
      ensures Valid() && str == old(str) && peek == old(peek) && offset >= old(offset)
      ensures currentOffset >= old(offset)
      ensures r.Ok? && Fresh()
      ensures r.b <==> old(Resolve(str, offset)) == Lit(c)
      ensures !r.b ==> offset == old(UpcomingOffset()) == UpcomingOffset()
      ensures !r.b ==> Resolve(str, offset) == old(Resolve(str, offset)) && !slotCleared
      ensures r.b ==> offset == old(UpcomingOffset()) + 1
      ensures trace == if r.b then old(trace) + [Lit(c)] else old(trace)
    {
      var t := Current();
      if t != Lit(c) {
        return Ok(false);
      }
      var ok := Next();
      r := Ok(true);
    }

    method Expect(name: string) returns (r: Outcome)
      requires Valid() && Fresh()
      modifies this
      ensures Valid() && str == old(str) && peek == old(peek) && offset >= old(offset)
      ensures currentOffset >= old(offset)
      ensures r == Ok(true) <==> G.IsSymbol(old(Resolve(str, offset)), name) && Len(old(Resolve(str, offset))) > 0
      ensures r == Ok(true) ==> offset == old(UpcomingOffset()) + Len(old(Resolve(str, offset)))
      ensures trace == if r == Ok(true) then old(trace) + [old(Resolve(str, offset))] else old(trace)
      ensures r == Ok(false) ==> old(peek) > 0 && offset == old(UpcomingOffset()) && !slotCleared
      ensures r.ParseError? ==> old(peek) == 0 && offset == old(UpcomingOffset()) && r.at == offset
      ensures r.Ok? ==> Fresh()
    {
      r := Accept(name);
      if r == Ok(false) {
        var shown := Current();
        r := Error();
      }
    }

    method ExpectC(c: char) returns (r: Outcome)
      requires Valid() && Fresh()
      modifies this
      ensures Valid() && str == old(str) && peek == old(peek) && offset >= old(offset)
      ensures currentOffset >= old(offset)
      ensures r != Malformed
      ensures r == Ok(true) <==> old(Resolve(str, offset)) == Lit(c)
      ensures r == Ok(true) ==> offset == old(UpcomingOffset()) + 1
      ensures trace == if r == Ok(true) then old(trace) + [Lit(c)] else old(trace)
      ensures r == Ok(false) ==> old(peek) > 0 && offset == old(UpcomingOffset()) && !slotCleared
      ensures r.ParseError? ==> old(peek) == 0 && offset == old(UpcomingOffset()) && r.at == offset
      ensures r.Ok? ==> Fresh()
    {
      r := AcceptC(c);
      if r == Ok(false) {
        var shown := Current();
        r := Error();
      }
    }

    /** `while ($this->accept('S')) ;` */
    method SkipSpaces() returns (r: Outcome)
      requires Valid() && Fresh()
      modifies this
      ensures Valid() && str == old(str) && peek == old(peek) && offset >= old(offset)
      ensures currentOffset >= old(offset)
      ensures r == Ok(true) || r == Malformed
      ensures r == Ok(true) ==> !slotCleared && !G.IsSymbol(Resolve(str, offset), "S")
      ensures old(trace) <= trace && L.Spaces(trace[|old(trace)|..])
    {
      ghost var before := trace;
      r := Accept("S");
      while r == Ok(true)
        invariant Valid() && str == old(str) && peek == old(peek) && offset >= old(offset)
        invariant currentOffset >= old(offset)
        invariant r == Ok(true) || r == Ok(false) || r == Malformed
        invariant r == Ok(true) ==> Fresh()
        invariant r == Ok(false) ==> !slotCleared && !G.IsSymbol(Resolve(str, offset), "S")
        invariant old(trace) <= before && L.Spaces(before[|old(trace)|..])
        invariant r == Ok(true) ==> |trace| == |before| + 1 && before <= trace && G.IsSymbol(trace[|before|], "S")
        invariant r != Ok(true) ==> trace == before
        decreases |str| - offset, if r == Ok(true) then 1 else 0
      {
        L.SpacesStep(old(trace), before, trace);
        before := trace;
        r := Accept("S");
      }
      if r == Ok(false) {
        r := Ok(true);
      }
    }

    /** Runs a production speculatively: one level deeper, and back to where
        it started when it fails. An exception leaves the depth raised. */
    method AcceptP(p: G.Prod) returns (r: Outcome)
      requires Valid() && Fresh()
      modifies this
      decreases |str| - offset, G.Rank(p), 2
      ensures Valid() && str == old(str) && offset >= old(offset)
      ensures r.Ok? ==> peek == old(peek) && Fresh()
      ensures r == Ok(true) ==> offset > old(offset) && G.CanStart(p, old(Resolve(str, offset)))
      ensures r.ParseError? ==> old(peek) == 0
      ensures r == Ok(false) ==> offset == old(offset) && Resolve(str, offset) == old(Resolve(str, offset))
      ensures r == Ok(false) ==> Restorable(old(offset), old(currentOffset), old(slotCleared))
      ensures !r.ParseError?
      ensures old(trace) <= trace
      ensures r == Ok(true) ==> L.Derives(p, trace[|old(trace)|..])
      ensures r == Ok(false) ==> trace == old(trace)
    {
      var keep := offset;
      ghost var read := trace;
      Deepen(1);
      r := Run(p);
      if !r.Ok? {
        return;
      }
      Deepen(-1);
      if !r.b {
        Restore(keep, read);
      }
    }

    /** Enters or leaves one speculative level. */
    method Deepen(step: int)
      requires Valid() && peek + step >= 0
      modifies this`peek
      ensures Valid() && peek == old(peek) + step
    {
      peek := peek + step;
    }

    /** Takes a failed attempt back: the offset it started from, and the
        trace as it was then. */
    method Restore(keep: int, ghost read: seq<Token>)
      requires Valid() && 0 <= keep <= |str|
      modifies this`offset, this`trace
      ensures Valid() && offset == keep && trace == read
    {
      Seek(keep);
      trace := read;
    }

    /** A production that must match: at depth 0 its failure throws, at the
        offset the cursor reads from once restored. */
    method ExpectP(p: G.Prod) returns (r: Outcome)
      requires Valid() && Fresh()
      modifies this
      decreases |str| - offset, G.Rank(p), 3
      ensures Valid() && str == old(str) && offset >= old(offset)
      ensures r.Ok? ==> peek == old(peek) && Fresh()
      ensures r == Ok(true) ==> offset > old(offset) && G.CanStart(p, old(Resolve(str, offset)))
      ensures r.ParseError? ==> old(peek) == 0
      ensures r == Ok(false) ==> old(peek) > 0 && !slotCleared
      ensures r.ParseError? ==> r.at == offset && (!ignore ==> offset == old(offset))
      ensures r.ParseError? ==> r.at == old(offset) || r.at == Landing(str, old(offset))
      ensures old(trace) <= trace
      ensures r == Ok(true) ==> L.Derives(p, trace[|old(trace)|..])
      ensures r == Ok(false) ==> trace == old(trace)
    {
      r := AcceptP(p);
      if r == Ok(false) {
        var shown := Current();
        r := Error();
      }
    }

    /** Dispatch to the production method. */
    method Run(p: G.Prod) returns (r: Outcome)
      requires Valid() && Fresh()
      modifies this
      decreases |str| - offset, G.Rank(p), 1
      ensures Valid() && str == old(str) && offset >= old(offset)
      ensures r.Ok? ==> peek == old(peek) && Fresh()
      ensures r == Ok(true) ==> offset > old(offset) && G.CanStart(p, old(Resolve(str, offset)))
      ensures r == Ok(false) ==> Restorable(old(offset), old(currentOffset), old(slotCleared))
      ensures r.ParseError? ==> old(peek) == 0
      ensures old(trace) <= trace
      ensures r == Ok(true) ==> L.Derives(p, trace[|old(trace)|..])
    {
      match p
      case SelectorsGroup => r := SelectorsGroup();
      case Selector => r := Selector();
      case Combinator => r := Combinator();
      case SimpleSelectorSequence => r := SimpleSelectorSequence();
      case SimpleSelectorSequenceG1 => r := SimpleSelectorSequenceG1();
      case TypeSelector => r := TypeSelector();
      case NamespacePrefix => r := NamespacePrefix();
      case ElementName => r := ElementName();
      case Universal => r := Universal();
      case Class => r := Class();
      case Attrib => r := Attrib();
      case AttribG1 => r := AttribG1();
      case Pseudo => r := Pseudo();
      case FunctionalPseudo => r := FunctionalPseudo();
      case Expression => r := Expression();
      case Negation => r := Negation();
      case NegationArg => r := NegationArg();
    }

    /** One term of an alternative list, by its kind. */
    method AcceptTerm(t: G.Term) returns (r: Outcome)
      requires Valid() && Fresh()
      modifies this
      decreases |str| - offset, G.TermRank(t), 4
      ensures Valid() && str == old(str) && offset >= old(offset)
      ensures r.Ok? ==> peek == old(peek) && Fresh()
      ensures r == Ok(true) ==> offset > old(offset) && G.TermCanStart(t, old(Resolve(str, offset)))
      ensures !r.ParseError?
      ensures !t.Production? ==> (r == Ok(false) <==> !G.TermMatches(t, old(Resolve(str, offset))))
      ensures r == Ok(false) ==> Resolve(str, offset) == old(Resolve(str, offset))
      ensures r == Ok(false) ==> Restorable(old(offset), old(currentOffset), old(slotCleared))
      ensures t.Production? && r == Ok(false) ==> offset == old(offset)
      ensures old(trace) <= trace
      ensures r == Ok(true) ==> L.TermDerives(t, trace[|old(trace)|..])
      ensures r == Ok(false) ==> trace == old(trace)
    {
      match t
      case Char(c) => r := AcceptC(c);
      case Symbol(name) => r := Accept(name);
      case Production(p) => r := AcceptP(p);
    }

    /** Ordered choice: the terms are tried from left to right and the first
        that matches ends the choice; `tried` counts the terms attempted. */
    method AcceptAny(ts: seq<G.Term>, ghost rank: nat) returns (r: Outcome, ghost tried: nat)
      requires Valid() && Fresh()
      requires forall i :: 0 <= i < |ts| ==> G.TermRank(ts[i]) <= rank
      modifies this
      decreases |str| - offset, rank, 5
      ensures Valid() && str == old(str) && offset >= old(offset)
      ensures r.Ok? ==> peek == old(peek) && Fresh()
      ensures !r.ParseError?
      ensures tried <= |ts|
      ensures r == Ok(false) ==> tried == |ts|
      ensures r != Ok(false) ==> 1 <= tried
      ensures forall j :: 0 <= j < tried && (r == Ok(false) || j < tried - 1) ==>
                !G.TermMatches(ts[j], old(Resolve(str, offset)))
      ensures r == Ok(true) ==> offset > old(offset) && G.TermCanStart(ts[tried - 1], old(Resolve(str, offset)))
      ensures |ts| > 0 && G.TermMatches(ts[0], old(Resolve(str, offset))) ==> r != Ok(false) && tried == 1
      ensures r == Ok(false) ==> Resolve(str, offset) == old(Resolve(str, offset))
      ensures r == Ok(false) ==> Restorable(old(offset), old(currentOffset), old(slotCleared))
      ensures old(trace) <= trace
      ensures r == Ok(true) ==> L.TermDerives(ts[tried - 1], trace[|old(trace)|..])
      ensures r == Ok(false) ==> trace == old(trace)
    {
      var i := 0;
      while i < |ts|
        invariant 0 <= i <= |ts|
        invariant Valid() && str == old(str) && peek == old(peek) && offset >= old(offset)
        invariant trace == old(trace)
        invariant Fresh() && Resolve(str, offset) == old(Resolve(str, offset))
        invariant forall j :: 0 <= j < i ==> !G.TermMatches(ts[j], old(Resolve(str, offset)))
        invariant Restorable(old(offset), old(currentOffset), old(slotCleared))
      {
        r := AcceptTerm(ts[i]);
        if r != Ok(false) {
          tried := i + 1;
          return;
        }
        i := i + 1;
      }
      r := Ok(false);
      tried := |ts|;
    }

    /** Ordered choice that must match. */
    method ExpectAny(ts: seq<G.Term>, ghost rank: nat) returns (r: Outcome, ghost tried: nat)
      requires Valid() && Fresh()
      requires forall i :: 0 <= i < |ts| ==> G.TermRank(ts[i]) <= rank
      modifies this
      decreases |str| - offset, rank, 6
      ensures Valid() && str == old(str) && offset >= old(offset)
      ensures r.Ok? ==> peek == old(peek) && Fresh()
      ensures r == Ok(false) ==> old(peek) > 0
      ensures r.ParseError? ==> old(peek) == 0 && r.at == offset
      ensures tried <= |ts|
      ensures r == Ok(false) || r.ParseError? ==> tried == |ts| && !G.StartsAny(ts, old(Resolve(str, offset)))
      ensures r == Ok(true) ==> offset > old(offset) && 1 <= tried && G.TermCanStart(ts[tried - 1], old(Resolve(str, offset)))
      ensures |ts| > 0 && G.TermMatches(ts[0], old(Resolve(str, offset))) ==> (r == Ok(true) || r == Malformed) && tried == 1
      ensures r == Ok(true) ==> forall j :: 0 <= j < tried - 1 ==> !G.TermMatches(ts[j], old(Resolve(str, offset)))
      ensures r == Ok(false) ==> Restorable(old(offset), old(currentOffset), old(slotCleared))
      ensures old(trace) <= trace
      ensures r == Ok(true) ==> L.TermDerives(ts[tried - 1], trace[|old(trace)|..])
      ensures r == Ok(false) || r.ParseError? ==> trace == old(trace)
    {
      r, tried := AcceptAny(ts, rank);
      if r == Ok(false) {
        r := Error();
      }
    }

    /** Loads a string and checks it against the grammar. A string that is
        accepted begins with a token that can start a selector, and nothing
        but comments follows the last selector. */
    method Parse(s: string) returns (r: Outcome)
      requires Valid()
      modifies this
      ensures Valid() && str == s
      ensures r != Ok(false)
      ensures r == Ok(true) ==> Resolve(str, offset) == End
      ensures r == Ok(true) ==> G.CanStart(G.SelectorsGroup, Resolve(str, 0))
      ensures Resolve(str, 0) == End ==> r.ParseError? || r == Malformed
      ensures r == Ok(true) ==> L.SelectorsGroupWord(trace)
    {
      str := s;
      Rewind();
      r := SelectorsGroup();
    }

    /** selectors_group : selector [ COMMA S* selector ]* */
    method SelectorsGroup() returns (r: Outcome)
      requires Valid() && Fresh()
      modifies this
      decreases |str| - offset, G.Rank(G.SelectorsGroup), 0
      ensures Valid() && str == old(str) && offset >= old(offset)
      ensures r.Ok? ==> peek == old(peek) && Fresh()
      ensures r == Ok(true) ==> offset > old(offset) && G.CanStart(G.SelectorsGroup, old(Resolve(str, offset)))
      ensures r == Ok(false) ==> Restorable(old(offset), old(currentOffset), old(slotCleared))
      ensures r.ParseError? ==> old(peek) == 0
      ensures old(peek) == 0 ==> r != Ok(false)
      ensures r == Ok(true) ==> Resolve(str, offset) == End
      ensures old(trace) <= trace
      ensures r == Ok(true) ==> L.Derives(G.SelectorsGroup, trace[|old(trace)|..])
    {
      r := ExpectP(G.Selector);
      if r != Ok(true) {
        return;
      }
      var more := IsValid();
      while more
        invariant Valid() && str == old(str) && peek == old(peek) && offset > old(offset)
        invariant Fresh()
        invariant !more ==> Resolve(str, offset) == End
        invariant old(trace) <= trace && L.SelectorsGroupWord(trace[|old(trace)|..])
        decreases |str| - offset
      {
        ghost var before := trace;
        r := NextSelector();
        if r != Ok(true) {
          return;
        }
        L.SelectorsGroupStep(old(trace), before, trace);
        more := IsValid();
      }
      r := Ok(true);
    }

    /** One `COMMA S* selector` round of `selectors_group`; it ranks above
        the selector it runs and below the group. */
    method NextSelector() returns (r: Outcome)
      requires Valid() && Fresh()
      modifies this
      decreases |str| - offset, G.Rank(G.Selector), 7
      ensures Valid() && str == old(str) && offset >= old(offset)
      ensures r.Ok? ==> peek == old(peek) && Fresh()
      ensures r == Ok(true) ==> offset > old(offset)
      ensures r == Ok(false) ==> old(peek) > 0 && !slotCleared
      ensures r.ParseError? ==> old(peek) == 0
      ensures old(trace) <= trace
      ensures r == Ok(true) ==> L.NextSelectorWord(trace[|old(trace)|..])
    {
      r := Expect("COMMA");
      if r != Ok(true) {
        return;
      }
      ghost var comma := trace;
      r := SkipSpaces();
      if r != Ok(true) {
        return;
      }
      ghost var spaced := trace;
      r := ExpectP(G.Selector);
      if r == Ok(true) {
        L.NextSelectorOf(old(trace), comma, spaced, trace);
      }
    }

    /** selector : simple_selector_sequence [ combinator simple_selector_sequence ]* */
    method Selector() returns (r: Outcome)
      requires Valid() && Fresh()
      modifies this
      decreases |str| - offset, G.Rank(G.Selector), 0
      ensures Valid() && str == old(str) && offset >= old(offset)
      ensures r.Ok? ==> peek == old(peek) && Fresh()
      ensures r == Ok(true) ==> offset > old(offset) && G.CanStart(G.Selector, old(Resolve(str, offset)))
      ensures r == Ok(false) ==> Restorable(old(offset), old(currentOffset), old(slotCleared))
      ensures r.ParseError? ==> old(peek) == 0
      ensures old(trace) <= trace
      ensures r == Ok(true) ==> L.Derives(G.Selector, trace[|old(trace)|..])
    {
      r := ExpectP(G.SimpleSelectorSequence);
      if r != Ok(true) {
        return;
      }
      ghost var mark := trace;
      var more := AcceptP(G.Combinator);
      while more == Ok(true)
        invariant Valid() && str == old(str) && offset > old(offset)
        invariant more.Ok? || more == Malformed
        invariant more.Ok? ==> peek == old(peek) && Fresh()
        invariant old(trace) <= mark <= trace && L.SelectorWord(mark[|old(trace)|..])
        invariant more == Ok(true) ==> L.CombinatorWord(trace[|mark|..])
        invariant more == Ok(false) ==> trace == mark
        decreases |str| - offset, if more == Ok(true) then 1 else 0
      {
        ghost var combined := trace;
        r := ExpectP(G.SimpleSelectorSequence);
        if r != Ok(true) {
          return;
        }
        L.SelectorStep(old(trace), mark, combined, trace);
        mark := trace;
        more := AcceptP(G.Combinator);
      }
      if more != Ok(false) {
        return more;
      }
      r := Ok(true);
      assert L.Derives(G.Selector, trace[|old(trace)|..]) by {
        assert trace == mark;
      }
    }

    /** The combinator rule is a stub that never matches. */
    method Combinator() returns (r: Outcome)
      ensures r == Ok(false)
    {
      r := Ok(false);
    }

    /** simple_selector_sequence
          : [ type_selector | universal ] G1*
          | G1+ */
    method SimpleSelectorSequence() returns (r: Outcome)
      requires Valid() && Fresh()
      modifies this
      decreases |str| - offset, G.Rank(G.SimpleSelectorSequence), 0
      ensures Valid() && str == old(str) && offset >= old(offset)
      ensures r.Ok? ==> peek == old(peek) && Fresh()
      ensures r == Ok(true) ==> offset > old(offset) && G.CanStart(G.SimpleSelectorSequence, old(Resolve(str, offset)))
      ensures r == Ok(false) ==> Restorable(old(offset), old(currentOffset), old(slotCleared))
      ensures r.ParseError? ==> old(peek) == 0
      ensures old(trace) <= trace
      ensures r == Ok(true) ==> L.Derives(G.SimpleSelectorSequence, trace[|old(trace)|..])
    {
      var head := AcceptP(G.TypeSelector);
      if head == Ok(false) {
        head := AcceptP(G.Universal);
      }
      if !head.Ok? {
        return head;
      }
      if head == Ok(false) {
        r := ExpectP(G.SimpleSelectorSequenceG1);
        if r != Ok(true) {
          return;
        }
      }
      ghost var headed := trace;
      r := RepeatG1();
      if r == Ok(true) {
        L.SimpleSelectorSequenceOf(old(trace), headed, trace);
      }
    }

    /** `while ($this->acceptP('simple_selector_sequence_G1')) ;`: as many G1
        parts as follow; it ranks above G1 and below the sequence. */
    method RepeatG1() returns (r: Outcome)
      requires Valid() && Fresh()
      modifies this
      decreases |str| - offset, G.Rank(G.SimpleSelectorSequenceG1), 7
      ensures Valid() && str == old(str) && offset >= old(offset)
      ensures r == Ok(true) || r == Malformed
      ensures r == Ok(true) ==> peek == old(peek) && Fresh()
      ensures old(trace) <= trace
      ensures r == Ok(true) ==> L.G1Star(trace[|old(trace)|..])
    {
      ghost var before := trace;
      var more := AcceptP(G.SimpleSelectorSequenceG1);
      while more == Ok(true)
        invariant Valid() && str == old(str) && offset >= old(offset)
        invariant more.Ok? || more == Malformed
        invariant more.Ok? ==> peek == old(peek) && Fresh()
        invariant old(trace) <= before <= trace && L.G1Star(before[|old(trace)|..])
        invariant more == Ok(true) ==> L.G1Word(trace[|before|..])
        invariant more == Ok(false) ==> trace == before
        decreases |str| - offset, if more == Ok(true) then 1 else 0
      {
        L.G1StarStep(old(trace), before, trace);
        before := trace;
        more := AcceptP(G.SimpleSelectorSequenceG1);
      }
      r := if more == Ok(false) then Ok(true) else more;
    }

    /** G1 : HASH | class | attrib | pseudo | negation */
    method SimpleSelectorSequenceG1() returns (r: Outcome)
      requires Valid() && Fresh()
      modifies this
      decreases |str| - offset, G.Rank(G.SimpleSelectorSequenceG1), 0
      ensures Valid() && str == old(str) && offset >= old(offset)
      ensures r.Ok? ==> peek == old(peek) && Fresh()
      ensures r == Ok(true) ==> offset > old(offset) && G.CanStart(G.SimpleSelectorSequenceG1, old(Resolve(str, offset)))
      ensures r == Ok(false) ==> Restorable(old(offset), old(currentOffset), old(slotCleared))
      ensures r.ParseError? ==> old(peek) == 0
      ensures old(trace) <= trace
      ensures r == Ok(true) ==> L.Derives(G.SimpleSelectorSequenceG1, trace[|old(trace)|..])
    {
      r := Accept("HASH");
      if r != Ok(false) {
        return;
      }
      r := AcceptP(G.Class);
      if r != Ok(false) {
        return;
      }
      r := SimpleSelectorSequenceG1Rest();
    }

    /** The `attrib | pseudo | negation` tail of G1, tried in that order; it
        ranks above the productions it runs and below G1. */
    method SimpleSelectorSequenceG1Rest() returns (r: Outcome)
      requires Valid() && Fresh()
      modifies this
      decreases |str| - offset, G.Rank(G.Pseudo), 7
      ensures Valid() && str == old(str) && offset >= old(offset)
      ensures r.Ok? ==> peek == old(peek) && Fresh()
      ensures r == Ok(true) ==> offset > old(offset)
      ensures r == Ok(true) ==> var t := old(Resolve(str, offset)); t == Lit('[') || t == Lit(':') || G.IsSymbol(t, "NOT")
      ensures r == Ok(false) ==> Restorable(old(offset), old(currentOffset), old(slotCleared))
      ensures r.ParseError? ==> old(peek) == 0
      ensures old(trace) <= trace
      ensures r == Ok(true) ==> var w := trace[|old(trace)|..]; L.AttribWord(w) || L.PseudoWord(w) || L.NegationWord(w)
    {
      r := AcceptP(G.Attrib);
      if r != Ok(false) {
        return;
      }
      r := AcceptP(G.Pseudo);
      if r != Ok(false) {
        return;
      }
      r := AcceptP(G.Negation);
      if r != Ok(false) {
        return;
      }
      r := Ok(false);
    }

    /** type_selector : [ namespace_prefix ]? element_name */
    method TypeSelector() returns (r: Outcome)
      requires Valid() && Fresh()
      modifies this
      decreases |str| - offset, G.Rank(G.TypeSelector), 0
      ensures Valid() && str == old(str) && offset >= old(offset)
      ensures r.Ok? ==> peek == old(peek) && Fresh()
      ensures r == Ok(true) ==> offset > old(offset) && G.CanStart(G.TypeSelector, old(Resolve(str, offset)))
      ensures r == Ok(false) ==> Restorable(old(offset), old(currentOffset), old(slotCleared))
      ensures r.ParseError? ==> old(peek) == 0
      ensures old(trace) <= trace
      ensures r == Ok(true) ==> L.Derives(G.TypeSelector, trace[|old(trace)|..])
    {
      var prefix := AcceptP(G.NamespacePrefix);
      if !prefix.Ok? {
        return prefix;
      }
      ghost var prefixed := trace;
      r := ExpectP(G.ElementName);
      if r == Ok(true) {
        L.PrefixedOf(old(trace), prefixed, trace);
      }
    }

    /** namespace_prefix : [ IDENT | '*' ]? '|' */
    method NamespacePrefix() returns (r: Outcome)
      requires Valid() && Fresh()
      modifies this
      ensures Valid() && str == old(str) && offset >= old(offset)
      ensures r.Ok? ==> peek == old(peek) && Fresh()
      ensures r == Ok(true) ==> offset > old(offset) && G.CanStart(G.NamespacePrefix, old(Resolve(str, offset)))
      ensures r == Ok(false) ==> Restorable(old(offset), old(currentOffset), old(slotCleared))
      ensures r.ParseError? ==> old(peek) == 0
      ensures old(trace) <= trace
      ensures r == Ok(true) ==> L.Derives(G.NamespacePrefix, trace[|old(trace)|..])
      ensures r == Ok(true) <==>
                var t, u := old(Resolve(str, offset)), old(UpcomingOffset());
                || t == Lit('|')
                || ((t == Lit('*') || (G.IsSymbol(t, "IDENT") && Len(t) > 0))
                    && u + Len(t) <= |str| && Resolve(str, u + Len(t)) == Lit('|'))
    {
      var name := NamespaceName();
      if name == Malformed {
        return Malformed;
      }
      r := ExpectC('|');
    }

    /** `$this->accept('IDENT') || $this->acceptC('*')`, the optional name
        of `namespace_prefix`. */
    method NamespaceName() returns (r: Outcome)
      requires Valid() && Fresh()
      modifies this
      ensures Valid() && str == old(str) && peek == old(peek) && offset >= old(offset)
      ensures r == Ok(true) || r == Ok(false) || r == Malformed
      ensures r.Ok? ==> Fresh()
      ensures var t := old(Resolve(str, offset));
              && (r == Ok(true) <==> t == Lit('*') || (G.IsSymbol(t, "IDENT") && Len(t) > 0))
              && (r == Malformed ==> G.IsSymbol(t, "IDENT") && Len(t) == 0 && trace == old(trace))
      ensures r == Ok(true) ==> var t := old(Resolve(str, offset));
                                offset == old(UpcomingOffset()) + Len(t) && trace == old(trace) + [t]
      ensures r == Ok(false) ==> offset == old(UpcomingOffset()) && trace == old(trace)
                                 && Resolve(str, offset) == old(Resolve(str, offset))
    {
      r := Accept("IDENT");
      if r == Ok(false) {
        r := AcceptC('*');
      }
    }

    /** element_name : IDENT */
    method ElementName() returns (r: Outcome)
      requires Valid() && Fresh()
      modifies this
      ensures Valid() && str == old(str) && offset >= old(offset)
      ensures r.Ok? ==> peek == old(peek) && Fresh()
      ensures r == Ok(true) ==> offset > old(offset) && G.CanStart(G.ElementName, old(Resolve(str, offset)))
      ensures r == Ok(false) ==> Restorable(old(offset), old(currentOffset), old(slotCleared))
      ensures r.ParseError? ==> old(peek) == 0
      ensures old(trace) <= trace
      ensures r == Ok(true) ==> L.Derives(G.ElementName, trace[|old(trace)|..])
      ensures r == Ok(true) <==> G.IsSymbol(old(Resolve(str, offset)), "IDENT") && Len(old(Resolve(str, offset))) > 0
      ensures r == Ok(true) ==> offset == old(UpcomingOffset()) + Len(old(Resolve(str, offset)))
    {
      r := Expect("IDENT");
    }

    /** universal : [ namespace_prefix ]? '*' */
    method Universal() returns (r: Outcome)
      requires Valid() && Fresh()
      modifies this
      decreases |str| - offset, G.Rank(G.Universal), 0
      ensures Valid() && str == old(str) && offset >= old(offset)
      ensures r.Ok? ==> peek == old(peek) && Fresh()
      ensures r == Ok(true) ==> offset > old(offset) && G.CanStart(G.Universal, old(Resolve(str, offset)))
      ensures r == Ok(false) ==> Restorable(old(offset), old(currentOffset), old(slotCleared))
      ensures r.ParseError? ==> old(peek) == 0
      ensures old(trace) <= trace
      ensures r == Ok(true) ==> L.Derives(G.Universal, trace[|old(trace)|..])
    {
      var prefix := AcceptP(G.NamespacePrefix);
      if !prefix.Ok? {
        return prefix;
      }
      ghost var prefixed := trace;
      r := ExpectC('*');
      if r == Ok(true) {
        L.PrefixedOf(old(trace), prefixed, trace);
      }
    }

    /** class : '.' IDENT */
    method Class() returns (r: Outcome)
      requires Valid() && Fresh()
      modifies this
      ensures Valid() && str == old(str) && offset >= old(offset)
      ensures r.Ok? ==> peek == old(peek) && Fresh()
      ensures r == Ok(true) ==> offset > old(offset) && G.CanStart(G.Class, old(Resolve(str, offset)))
      ensures r == Ok(false) ==> Restorable(old(offset), old(currentOffset), old(slotCleared))
      ensures r.ParseError? ==> old(peek) == 0
      ensures old(trace) <= trace
      ensures r == Ok(true) ==> L.Derives(G.Class, trace[|old(trace)|..])
      ensures r == Ok(true) <==>
                var u := old(UpcomingOffset());
                && old(Resolve(str, offset)) == Lit('.') && u + 1 <= |str|
                && G.IsSymbol(Resolve(str, u + 1), "IDENT") && Len(Resolve(str, u + 1)) > 0
    {
      r := ExpectC('.');
      if r != Ok(true) {
        return;
      }
      r := Expect("IDENT");
    }

    /** attrib : '[' S* [ namespace_prefix ]? IDENT S* G1? ']' */
    method Attrib() returns (r: Outcome)
      requires Valid() && Fresh()
      modifies this
      decreases |str| - offset, G.Rank(G.Attrib), 0
      ensures Valid() && str == old(str) && offset >= old(offset)
      ensures r.Ok? ==> peek == old(peek) && Fresh()
      ensures r == Ok(true) ==> offset > old(offset) && G.CanStart(G.Attrib, old(Resolve(str, offset)))
      ensures r == Ok(false) ==> Restorable(old(offset), old(currentOffset), old(slotCleared))
      ensures r.ParseError? ==> old(peek) == 0
      ensures old(trace) <= trace
      ensures r == Ok(true) ==> L.Derives(G.Attrib, trace[|old(trace)|..])
    {
      r := ExpectC('[');
      if r != Ok(true) {
        return;
      }
      ghost var open := trace;
      r := AttribName();
      if r != Ok(true) {
        return;
      }
      ghost var named := trace;
      r := AttribClose();
      if r == Ok(true) {
        L.AttribOf(old(trace), open, named, trace);
      }
    }

    /** The `[ namespace_prefix ]? IDENT` part of `attrib`; the prefix is
        optional, so only an exception from it counts. */
    method AttribName() returns (r: Outcome)
      requires Valid() && Fresh()
      modifies this
      decreases |str| - offset, G.Rank(G.Attrib), 0
      ensures Valid() && str == old(str) && offset >= old(offset)
      ensures r.Ok? ==> peek == old(peek) && Fresh()
      ensures r == Ok(true) ==> offset > old(offset)
      ensures r == Ok(false) ==> !slotCleared
      ensures r.ParseError? ==> old(peek) == 0
      ensures old(trace) <= trace
      ensures r == Ok(true) ==> L.AttribNameWord(trace[|old(trace)|..])
    {
      r := SkipSpaces();
      if r != Ok(true) {
        return;
      }
      ghost var spaced := trace;
      var part := AcceptP(G.NamespacePrefix);
      if !part.Ok? {
        return part;
      }
      ghost var prefixed := trace;
      r := Expect("IDENT");
      if r == Ok(true) {
        L.PrefixedOf(spaced, prefixed, trace);
        L.AttribNameOf(old(trace), spaced, trace);
      }
    }

    /** The `G1? ']'` part of `attrib`. */
    method AttribClose() returns (r: Outcome)
      requires Valid() && Fresh()
      modifies this
      decreases |str| - offset, G.Rank(G.Attrib), 0
      ensures Valid() && str == old(str) && offset >= old(offset)
      ensures r.Ok? ==> peek == old(peek) && Fresh()
      ensures r == Ok(true) ==> offset > old(offset)
      ensures r == Ok(false) ==> !slotCleared
      ensures r.ParseError? ==> old(peek) == 0
      ensures old(trace) <= trace
      ensures r == Ok(true) ==> L.AttribCloseWord(trace[|old(trace)|..])
    {
      r := SkipSpaces();
      if r != Ok(true) {
        return;
      }
      ghost var spaced := trace;
      var part := AcceptP(G.AttribG1);
      if !part.Ok? {
        return part;
      }
      ghost var valued := trace;
      r := ExpectC(']');
      if r == Ok(true) {
        L.AttribCloseOf(old(trace), spaced, valued, trace);
      }
    }

    /** attrib G1 : [ PREFIXMATCH | SUFFIXMATCH | SUBSTRINGMATCH | '=' | INCLUDES
                      | DASHMATCH ] S* [ IDENT | STRING ] S* */
    method AttribG1() returns (r: Outcome)
      requires Valid() && Fresh()
      modifies this
      decreases |str| - offset, G.Rank(G.AttribG1), 0
      ensures Valid() && str == old(str) && offset >= old(offset)
      ensures r.Ok? ==> peek == old(peek) && Fresh()
      ensures r == Ok(true) ==> offset > old(offset) && G.CanStart(G.AttribG1, old(Resolve(str, offset)))
      ensures r == Ok(false) ==> Restorable(old(offset), old(currentOffset), old(slotCleared))
      ensures r.ParseError? ==> old(peek) == 0
      ensures old(trace) <= trace
      ensures r == Ok(true) ==> L.Derives(G.AttribG1, trace[|old(trace)|..])
    {
      G.TermListRanks();
      ghost var tried: nat;
      r, tried := ExpectAny(G.AttribOperators, 0);
      if r != Ok(true) {
        return;
      }
      assert G.TermMatches(G.AttribOperators[tried - 1], old(Resolve(str, offset)));
      L.OneTokenTerm(G.AttribOperators, tried - 1, old(trace), trace);
      ghost var operated := trace;
      r := AttribValue();
      if r == Ok(true) {
        L.AttribG1Of(old(trace), operated, trace);
      }
    }

    /** The `S* [ IDENT | STRING ] S*` part of `attrib_G1`. */
    method AttribValue() returns (r: Outcome)
      requires Valid() && Fresh()
      modifies this
      decreases |str| - offset, G.Rank(G.AttribG1), 0
      ensures Valid() && str == old(str) && offset >= old(offset)
      ensures r.Ok? ==> peek == old(peek) && Fresh()
      ensures r == Ok(false) ==> !slotCleared || currentOffset >= old(offset)
      ensures r.ParseError? ==> old(peek) == 0
      ensures old(trace) <= trace
      ensures r == Ok(true) ==> L.AttribValueWord(trace[|old(trace)|..])
    {
      G.TermListRanks();
      ghost var tried: nat;
      r := SkipSpaces();
      if r != Ok(true) {
        return;
      }
      ghost var spaced := trace;
      r, tried := ExpectAny(G.AttribValues, 0);
      if r != Ok(true) {
        return;
      }
      L.OneTokenTerm(G.AttribValues, tried - 1, spaced, trace);
      ghost var valued := trace;
      r := SkipSpaces();
      if r == Ok(true) {
        L.AttribValueOf(old(trace), spaced, valued, trace);
      }
    }

    /** pseudo : ':' ':'? [ IDENT | functional_pseudo ] */
    method Pseudo() returns (r: Outcome)
      requires Valid() && Fresh()
      modifies this
      decreases |str| - offset, G.Rank(G.Pseudo), 0
      ensures Valid() && str == old(str) && offset >= old(offset)
      ensures r.Ok? ==> peek == old(peek) && Fresh()
      ensures r == Ok(true) ==> offset > old(offset) && G.CanStart(G.Pseudo, old(Resolve(str, offset)))
      ensures r == Ok(false) ==> Restorable(old(offset), old(currentOffset), old(slotCleared))
      ensures r.ParseError? ==> old(peek) == 0
      ensures old(trace) <= trace
      ensures r == Ok(true) ==> L.Derives(G.Pseudo, trace[|old(trace)|..])
    {
      r := ExpectC(':');
      if r != Ok(true) {
        return;
      }
      ghost var colon := trace;
      r := PseudoRest();
      if r == Ok(true) {
        L.PseudoOf(old(trace), colon, trace);
      }
    }

    /** The optional second colon and the name of `pseudo`; it ranks above
        `functional_pseudo` and below `pseudo`. */
    method PseudoRest() returns (r: Outcome)
      requires Valid() && Fresh()
      modifies this
      decreases |str| - offset, G.Rank(G.FunctionalPseudo), 8
      ensures Valid() && str == old(str) && offset >= old(offset)
      ensures r.Ok? ==> peek == old(peek) && Fresh()
      ensures r == Ok(true) ==> offset > old(offset)
      ensures r == Ok(false) ==> !slotCleared || currentOffset >= old(offset)
      ensures r.ParseError? ==> old(peek) == 0
      ensures old(trace) <= trace
      ensures r == Ok(true) ==> L.PseudoRestWord(trace[|old(trace)|..])
      // IDENT is tried before functional_pseudo: a name read as IDENT is
      // consumed as that one token.
      ensures r == Ok(true) ==>
        var colon := old(Resolve(str, offset)) == Lit(':');
        var name := if colon then Resolve(str, old(UpcomingOffset()) + 1) else old(Resolve(str, offset));
        G.IsSymbol(name, "IDENT") ==>
          |trace| == |old(trace)| + (if colon then 2 else 1) && G.IsSymbol(trace[|trace| - 1], "IDENT")
    {
      var second := AcceptC(':');
      ghost var colons := trace;
      r := PseudoName();
      if r == Ok(true) {
        L.PseudoRestOf(old(trace), colons, trace);
      }
    }

    /** The name of `pseudo`: IDENT, tried first, or `functional_pseudo`. */
    method PseudoName() returns (r: Outcome)
      requires Valid() && Fresh()
      modifies this
      decreases |str| - offset, G.Rank(G.FunctionalPseudo), 7
      ensures Valid() && str == old(str) && offset >= old(offset)
      ensures r.Ok? ==> peek == old(peek) && Fresh()
      ensures r == Ok(true) ==> offset > old(offset)
      ensures r == Ok(false) ==> Restorable(old(offset), old(currentOffset), old(slotCleared))
      ensures r.ParseError? ==> old(peek) == 0
      ensures old(trace) <= trace
      ensures r == Ok(true) ==> L.PseudoNameWord(trace[|old(trace)|..])
      ensures r == Ok(true) && G.IsSymbol(old(Resolve(str, offset)), "IDENT") ==>
        |trace| == |old(trace)| + 1 && G.IsSymbol(trace[|trace| - 1], "IDENT")
    {
      G.TermListRanks();
      ghost var tried: nat;
      r, tried := ExpectAny(G.PseudoNames, G.Rank(G.FunctionalPseudo));
      if r == Ok(true) {
        L.PseudoNameDerives(tried - 1, trace[|old(trace)|..]);
        if G.IsSymbol(old(Resolve(str, offset)), "IDENT") {
          assert G.TermMatches(G.PseudoNames[0], old(Resolve(str, offset)));
          L.IdentNameLast(old(trace), trace);
        }
      }
    }

    /** functional_pseudo : FUNCTION S* expression ')' */
    method FunctionalPseudo() returns (r: Outcome)
      requires Valid() && Fresh()
      modifies this
      decreases |str| - offset, G.Rank(G.FunctionalPseudo), 0
      ensures Valid() && str == old(str) && offset >= old(offset)
      ensures r.Ok? ==> peek == old(peek) && Fresh()
      ensures r == Ok(true) ==> offset > old(offset) && G.CanStart(G.FunctionalPseudo, old(Resolve(str, offset)))
      ensures r == Ok(false) ==> Restorable(old(offset), old(currentOffset), old(slotCleared))
      ensures r.ParseError? ==> old(peek) == 0
      ensures old(trace) <= trace
      ensures r == Ok(true) ==> L.Derives(G.FunctionalPseudo, trace[|old(trace)|..])
    {
      r := Expect("FUNCTION");
      if r != Ok(true) {
        return;
      }
      ghost var named := trace;
      r := FunctionArgs();
      if r == Ok(true) {
        L.FunctionalPseudoOf(old(trace), named, trace);
      }
    }

    /** The `S* expression ')'` part of `functional_pseudo`; it ranks above
        the expression it runs and below `functional_pseudo`. */
    method FunctionArgs() returns (r: Outcome)
      requires Valid() && Fresh()
      modifies this
      decreases |str| - offset, G.Rank(G.Expression), 7
      ensures Valid() && str == old(str) && offset >= old(offset)
      ensures r.Ok? ==> peek == old(peek) && Fresh()
      ensures r == Ok(true) ==> offset > old(offset)
      ensures r == Ok(false) ==> old(peek) > 0 && !slotCleared
      ensures r.ParseError? ==> old(peek) == 0
      ensures old(trace) <= trace
      ensures r == Ok(true) ==> L.FunctionArgsWord(trace[|old(trace)|..])
    {
      r := SkipSpaces();
      if r != Ok(true) {
        return;
      }
      ghost var spaced := trace;
      r := ExpectP(G.Expression);
      if r != Ok(true) {
        return;
      }
      ghost var expressed := trace;
      r := ExpectC(')');
      if r == Ok(true) {
        L.FunctionArgsOf(old(trace), spaced, expressed, trace);
      }
    }

    /** expression : [ [ PLUS | '-' | DIMENSION | NUMBER | STRING | IDENT ] S* ]+
        Each term is expected, so a missing first term throws at depth 0. */
    method Expression() returns (r: Outcome)
      requires Valid() && Fresh()
      modifies this
      decreases |str| - offset, G.Rank(G.Expression), 0
      ensures Valid() && str == old(str) && offset >= old(offset)
      ensures r.Ok? ==> peek == old(peek) && Fresh()
      ensures r == Ok(true) ==> offset > old(offset) && G.CanStart(G.Expression, old(Resolve(str, offset)))
      ensures r == Ok(false) ==> Restorable(old(offset), old(currentOffset), old(slotCleared))
      ensures r.ParseError? ==> old(peek) == 0
      ensures old(trace) <= trace
      ensures r == Ok(true) ==> L.Derives(G.Expression, trace[|old(trace)|..])
    {
      G.TermListRanks();
      ghost var tried: nat;
      var term;
      term, tried := ExpectAny(G.ExpressionTerms, 0);
      if term != Ok(true) {
        return term;
      }
      assert G.TermMatches(G.ExpressionTerms[tried - 1], old(Resolve(str, offset)));
      L.OneTokenTerm(G.ExpressionTerms, tried - 1, old(trace), trace);
      ghost var first := trace;
      r := ExpressionRepeat();
      if r == Ok(true) {
        L.ExpressionOf(old(trace), first, trace);
      }
    }

    /** The loop of `expression` after its first term: spaces and further
        terms until a term is missing, which ends the loop with TRUE. */
    method ExpressionRepeat() returns (r: Outcome)
      requires Valid() && Fresh()
      modifies this
      decreases |str| - offset, G.Rank(G.Expression), 1
      ensures Valid() && str == old(str) && offset >= old(offset)
      ensures r.Ok? ==> peek == old(peek) && Fresh()
      ensures r != Ok(false)
      ensures r.ParseError? ==> old(peek) == 0
      ensures old(trace) <= trace
      ensures r == Ok(true) ==> L.SpacesAndTerms(trace[|old(trace)|..])
    {
      ghost var before := trace;
      var term := ExpressionNext();
      while term == Ok(true)
        invariant Valid() && str == old(str) && offset >= old(offset)
        invariant term.Ok? ==> peek == old(peek) && Fresh()
        invariant term.ParseError? ==> old(peek) == 0
        invariant old(trace) <= before <= trace && L.SpacesAndTerms(before[|old(trace)|..])
        invariant term == Ok(true) ==> L.SpacesThenTerm(trace[|before|..])
        invariant term == Ok(false) ==> L.Spaces(trace[|before|..])
        decreases |str| - offset, if term == Ok(true) then 1 else 0
      {
        L.SpacesAndTermsStep(old(trace), before, trace);
        before := trace;
        term := ExpressionNext();
      }
      if term != Ok(false) {
        return term;
      }
      L.SpacesAndTermsStep(old(trace), before, trace);
      r := Ok(true);
    }

    /** One more round of the `expression` loop: the spaces after a term,
        then the next term. */
    method ExpressionNext() returns (r: Outcome)
      requires Valid() && Fresh()
      modifies this
      decreases |str| - offset, G.Rank(G.Expression), 0
      ensures Valid() && str == old(str) && offset >= old(offset)
      ensures r.Ok? ==> peek == old(peek) && Fresh()
      ensures r == Ok(true) ==> offset > old(offset)
      ensures r.ParseError? ==> old(peek) == 0
      ensures old(trace) <= trace
      ensures r == Ok(true) ==> L.SpacesThenTerm(trace[|old(trace)|..])
      ensures r == Ok(false) ==> L.Spaces(trace[|old(trace)|..])
    {
      G.TermListRanks();
      ghost var tried: nat;
      r := SkipSpaces();
      if r != Ok(true) {
        return;
      }
      ghost var spaced := trace;
      r, tried := ExpectAny(G.ExpressionTerms, 0);
      if r == Ok(true) {
        L.OneTokenTerm(G.ExpressionTerms, tried - 1, spaced, trace);
        L.ExpressionNextOf(old(trace), spaced, trace);
      }
    }

    /** negation : NOT S* negation_arg S* ')'
        As written it fails when the closing parenthesis is there and
        succeeds when it is missing. */
    method Negation() returns (r: Outcome)
      requires Valid() && Fresh()
      modifies this
      decreases |str| - offset, G.Rank(G.Negation), 0
      ensures Valid() && str == old(str) && offset >= old(offset)
      ensures r.Ok? ==> peek == old(peek) && Fresh()
      ensures r == Ok(true) ==> offset > old(offset) && G.CanStart(G.Negation, old(Resolve(str, offset)))
      ensures r == Ok(false) ==> Restorable(old(offset), old(currentOffset), old(slotCleared))
      ensures r.ParseError? ==> old(peek) == 0
      ensures r == Ok(true) ==> old(peek) > 0
      ensures old(trace) <= trace
      ensures r == Ok(true) ==> L.Derives(G.Negation, trace[|old(trace)|..])
      ensures r == Ok(true) ==> Resolve(str, offset) != Lit(')')
    {
      r := Expect("NOT");
      if r != Ok(true) {
        return;
      }
      ghost var not := trace;
      r := NegationBody();
      if r == Ok(true) {
        L.NegationOf(old(trace), not, trace);
      }
    }

    /** The `S* negation_arg S* ')'` part of `negation`; it ranks above the
        argument it runs and below `negation`. */
    method NegationBody() returns (r: Outcome)
      requires Valid() && Fresh()
      modifies this
      decreases |str| - offset, G.Rank(G.NegationArg), 7
      ensures Valid() && str == old(str) && offset >= old(offset)
      ensures r.Ok? ==> peek == old(peek) && Fresh()
      ensures r == Ok(true) ==> old(peek) > 0
      ensures r == Ok(false) ==> !slotCleared || currentOffset >= old(offset)
      ensures r.ParseError? ==> old(peek) == 0
      ensures old(trace) <= trace
      ensures r == Ok(true) ==> L.NegationBodyWord(trace[|old(trace)|..])
      ensures r == Ok(true) ==> Resolve(str, offset) != Lit(')')
    {
      r := SkipSpaces();
      if r != Ok(true) {
        return;
      }
      ghost var spaced := trace;
      r := ExpectP(G.NegationArg);
      if r != Ok(true) {
        return;
      }
      ghost var argued := trace;
      r := NegationClose();
      if r == Ok(true) {
        L.NegationBodyOf(old(trace), spaced, argued, trace);
      }
    }

    /** The `S* ')'` tail of `negation`, with the result of the closing
        parenthesis inverted as written. */
    method NegationClose() returns (r: Outcome)
      requires Valid() && Fresh()
      modifies this
      decreases |str| - offset, G.Rank(G.Negation), 0
      ensures Valid() && str == old(str) && offset >= old(offset)
      ensures r.Ok? ==> peek == old(peek) && Fresh()
      ensures r == Ok(true) ==> old(peek) > 0
      ensures r == Ok(false) ==> !slotCleared || currentOffset >= old(offset)
      ensures r.ParseError? ==> old(peek) == 0
      ensures old(trace) <= trace
      ensures r == Ok(true) ==> L.Spaces(trace[|old(trace)|..])
      ensures r == Ok(true) ==> Resolve(str, offset) != Lit(')') && !G.IsSymbol(Resolve(str, offset), "S")
      ensures r == Ok(false) ==> exists u :: old(offset) <= u <= |str| && offset == u + 1 && Resolve(str, u) == Lit(')')
    {
      r := SkipSpaces();
      if r != Ok(true) {
        return;
      }
      ghost var u := UpcomingOffset();
      var close := ExpectC(')');
      if close == Ok(true) {
        assert offset == u + 1 && Resolve(str, u) == Lit(')');
        return Ok(false);
      }
      if close != Ok(false) {
        return close;
      }
      r := Ok(true);
    }

    /** negation_arg hands a string where a list is required: a fatal error
        whenever it is reached. */
    method NegationArg() returns (r: Outcome)
      ensures r == Malformed
    {
      r := Malformed;
    }
  }

  /** A tokenizer that reads every character as a literal. */
  function CharLexer(): Lexer
  {
    (s: string, k: int) => if 0 <= k < |s| then Lit(s[k]) else End
  }

  lemma CharLexerSound()
    ensures Sound(CharLexer())
  {
  }

  /** The single-slot memo as written: after `current()` and `next()`, seeking
      back to the token just read makes `current()` answer End, because the
      slot still names that offset but `next()` cleared its token. */
  method SlotGapWitness() returns (before: Token, again: Token)
    ensures before == Lit('a')
    ensures again == End
  {
    CharLexerSound();
    var p := new CssParser(CharLexer());
    p.SetString("ab");
    before := p.Current();
    var ok := p.Next();
    p.Seek(0);
    again := p.Current();
  }

  /** A tokenizer that reads '/' as a one-byte comment and every other
      character as a literal. */
  function SlashCommentLexer(): Lexer
  {
    (s: string, k: int) =>
      if 0 <= k < |s| then (if s[k] == '/' then Sym(CommentName, "/") else Lit(s[k])) else End
  }

  lemma SlashCommentLexerSound()
    ensures Sound(SlashCommentLexer())
  {
  }

  /** The single-slot memo and the comment skip as written: after the first
      read has stepped over the comment in "/ab", seeking back to 0 makes
      `current()` answer 'a' from the slot without moving the offset past the
      comment, so `next()` advances from 0 to 1 and 'a' is read once more
      instead of 'b'. */
  method CommentGapWitness() returns (first: Token, again: Token, after: Token)
    ensures first == Lit('a') && again == Lit('a') && after == Lit('a')
  {
    SlashCommentLexerSound();
    var p := new CssParser(SlashCommentLexer());
    p.SetString("/ab");
    assert Skip(SlashCommentLexer(), "/ab", 1) == 1;
    assert Skip(SlashCommentLexer(), "/ab", 0) == 1;
    first := p.Current();
    assert p.offset == 1 && p.currentOffset == 0 && p.current == first;
    p.Seek(0);
    again := p.Current();
    assert p.offset == 0;
    var ok := p.Next();
    assert p.offset == 1;
    after := p.Current();
  }
}
