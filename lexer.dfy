/** The tokenizer `From<&mut Chars> for NodeValueFromChars`
    (src/main.rs:91-119). The character iterator is modelled as the sequence
    of characters not yet read: the tokenizer returns the token together with
    the characters left after it. */
module Lexer {
  import opened Values

  /** `NodeValueFromChars`: a node value, an opening bracket, or the end of a
      group (a closing bracket or the end of the input). */
  datatype Token = Value(v: NodeValue) | BracketOpen | End

  /** Characters that the tokenizer reads as a variable name: everything
      except a space and the characters it matches explicitly. */
  predicate IsVarChar(c: char) {
    c !in {' ', '(', ')', '!', '&', 'V', '^', '-', '<'}
  }

  /** A token the tokenizer can produce: a variable is named by a variable
      character. */
  predicate ValidToken(t: Token) {
    t.Value? && t.v.Var? ==> IsVarChar(t.v.symbol)
  }

  /** The lexeme that stands for a token in a formula: `)` for the end of a
      group, `->` and `<->` for implication and equivalence, one character
      for everything else. */
  function Render(t: Token): (s: seq<char>)
    ensures 1 <= |s| <= 3
  {
    match t
    case BracketOpen => "("
    case End => ")"
    case Value(v) =>
      match v
      case Not => "!"
      case And => "&"
      case Or => "V"
      case Xor => "^"
      case Impl => "->"
      case Eq => "<->"
      case Var(c) => [c]
  }

  /** The first character of a lexeme tells which token it is. */
  lemma RenderFirstCharDeterminesToken(a: Token, b: Token)
    requires ValidToken(a) && ValidToken(b)
    requires Render(a)[0] == Render(b)[0]
    ensures a == b
  {
  }

  /** `s` without its leading spaces. */
  function SkipSpaces(s: seq<char>): (t: seq<char>)
    ensures |t| <= |s| && t == s[|s| - |t|..]
    ensures forall i :: 0 <= i < |s| - |t| ==> s[i] == ' '
    ensures t == [] || t[0] != ' '
    decreases |s|
  {
    if s != [] && s[0] == ' ' then SkipSpaces(s[1..]) else s
  }

  /** `s` without its first `n` characters, or empty when it is shorter:
      what `n` calls of `Chars::next` leave. */
  function Drop(s: seq<char>, n: nat): seq<char> {
    if n <= |s| then s[n..] else []
  }

  /** The match arms of the tokenizer for a first character that is not a
      space (src/main.rs:101-116): the token whose lexeme starts with that
      character, and the input without as many characters as the lexeme is
      long, whatever they are. */
  function ReadLexeme(s: seq<char>): (r: (Token, seq<char>))
    requires s != [] && s[0] != ' '
    ensures ValidToken(r.0)
    ensures Render(r.0)[0] == s[0] && r.1 == Drop(s, |Render(r.0)|)
  {
    match s[0]
    case '(' => (BracketOpen, s[1..])
    case ')' => (End, s[1..])
    case '!' => (Value(Not), s[1..])
    case '&' => (Value(And), s[1..])
    case 'V' => (Value(Or), s[1..])
    case '^' => (Value(Xor), s[1..])
    case '-' => (Value(Impl), Drop(s[1..], 1))
    case '<' => (Value(Eq), Drop(s[1..], 2))
    case c => (Value(Var(c)), s[1..])
  }

  /** The tokenizer. Leading spaces are skipped by the recursion at
      src/main.rs:100; `NextTokenReadsLexeme` states what it reads after
      them. The characters left are always a suffix of the input, strictly
      shorter when the input is not empty, and an exhausted input gives
      `End`. */
  function NextToken(s: seq<char>): (r: (Token, seq<char>))
    ensures |r.1| <= |s| && r.1 == s[|s| - |r.1|..]
    ensures s != [] ==> |r.1| < |s|
    ensures s == [] ==> r.0 == End
    ensures ValidToken(r.0)
    decreases |s|
  {
    if s == [] then (End, [])
    else if s[0] == ' ' then NextToken(s[1..])
    else ReadLexeme(s)
  }

  /** What the tokenizer reads. Once leading spaces are skipped, an exhausted
      input gives `End` and nothing is left. Otherwise the token is the one
      whose lexeme starts with the first non-space character (so `(`, `)`,
      `!`, `&`, `V`, `^`, `-`, `<` give `BracketOpen`, `End`, `Not`, `And`,
      `Or`, `Xor`, `Impl`, `Eq`, and any other character `c` gives
      `Var(c)`), and as many characters are consumed as that lexeme is long:
      after `-` one more character is dropped and after `<` two more,
      without being checked. */
  lemma {:induction false} NextTokenReadsLexeme(s: seq<char>)
    ensures var r := NextToken(s);
      && (SkipSpaces(s) == [] ==> r == (End, []))
      && (SkipSpaces(s) != [] ==>
            Render(r.0)[0] == SkipSpaces(s)[0] && r.1 == Drop(SkipSpaces(s), |Render(r.0)|))
    decreases |s|
  {
    if s != [] && s[0] == ' ' {
      NextTokenReadsLexeme(s[1..]);
    }
  }

  /** One leading space is invisible to the tokenizer. */
  lemma OneSpaceIsSkipped(s: seq<char>)
    ensures NextToken([' '] + s) == NextToken(s)
  {
    assert ([' '] + s)[1..] == s;
  }

  /** Any run of leading spaces is invisible to the tokenizer. */
  lemma {:induction false} SpacesAreSkipped(s: seq<char>, k: nat)
    requires k <= |s|
    requires forall i :: 0 <= i < k ==> s[i] == ' '
    ensures NextToken(s) == NextToken(s[k..])
    decreases k
  {
    if k > 0 {
      assert NextToken(s) == NextToken(s[1..]);
      assert s[1..][k - 1..] == s[k..];
      SpacesAreSkipped(s[1..], k - 1);
    }
  }

  /** Reading back the lexeme of a token gives that token and leaves exactly
      what followed the lexeme. */
  lemma RenderRoundTrip(tok: Token, rest: seq<char>)
    requires ValidToken(tok)
    ensures NextToken(Render(tok) + rest) == (tok, rest)
  {
    var s := Render(tok) + rest;
    assert s[0] == Render(tok)[0];
    assert s[0] != ' ';
    assert SkipSpaces(s) == s;
    var r := NextToken(s);
    RenderFirstCharDeterminesToken(r.0, tok);
    assert s[|Render(tok)|..] == rest;
  }

  /** The characters after `-` and `<` are consumed unseen: `-` followed by
      anything reads as `->`, `<` followed by any two characters as `<->`,
      and a lone `-` or `<` at the end of the input still gives its
      operator. */
  lemma ContinuationIsNotChecked(a: char, b: char, rest: seq<char>)
    ensures NextToken(['-', a] + rest) == (Value(Impl), rest)
    ensures NextToken(['<', a, b] + rest) == (Value(Eq), rest)
    ensures NextToken(['-']) == (Value(Impl), [])
    ensures NextToken(['<', a]) == (Value(Eq), [])
  {
    assert (['-', a] + rest)[2..] == rest;
    assert (['<', a, b] + rest)[3..] == rest;
  }
}
