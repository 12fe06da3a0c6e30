/**
 * The instruction set and the lexer: `BfToken`, its payload-ignoring equality
 * and the mapping from source characters to tokens (src/main.rs:9-45, 50).
 */
module Tokens {

  /** One instruction. The four counted kinds carry a repeat count (a `usize` in the program). */
  datatype Token =
    | Inc(n: nat) | Dec(n: nat) | Lef(n: nat) | Rig(n: nat)
    | Jum | Bac | Acc | Out | Nan
  {
    /** The kinds that carry a count and take part in fusion. */
    predicate Counted() { Inc? || Dec? || Lef? || Rig? }
  }

  /** The token with its count erased: what remains is the token's kind. */
  function Shape(t: Token): Token {
    if t.Counted() then t.(n := 0) else t
  }

  /** The hand-written `PartialEq`: two tokens are equal when they are of the same kind, whatever their counts. */
  function Same(a: Token, b: Token): (r: bool)
    ensures r <==> Shape(a) == Shape(b)
  {
    match (a, b)
    case (Inc(_), Inc(_)) => true
    case (Dec(_), Dec(_)) => true
    case (Lef(_), Lef(_)) => true
    case (Rig(_), Rig(_)) => true
    case (Jum, Jum) => true
    case (Bac, Bac) => true
    case (Acc, Acc) => true
    case (Out, Out) => true
    case (Nan, Nan) => true
    case (_, _) => false
  }

  /** The eight characters the language gives a meaning to. */
  predicate IsCommand(c: char) {
    c == '>' || c == '<' || c == '+' || c == '-' || c == '.' || c == ',' || c == '[' || c == ']'
  }

  /** `From<char>`: commands become count-1 tokens, everything else `Nan`. */
  function FromChar(c: char): (t: Token)
    ensures t != Nan <==> IsCommand(c)
    ensures t.Counted() ==> t.n == 1
  {
    match c
    case '>' => Rig(1)
    case '<' => Lef(1)
    case '+' => Inc(1)
    case '-' => Dec(1)
    case '.' => Out
    case ',' => Acc
    case '[' => Jum
    case ']' => Bac
    case _ => Nan
  }

  /** The character a token of a given kind is written with; the inverse of `FromChar` on commands. */
  function ToChar(t: Token): (c: char)
    requires t != Nan
    ensures IsCommand(c)
  {
    match t
    case Rig(_) => '>'
    case Lef(_) => '<'
    case Inc(_) => '+'
    case Dec(_) => '-'
    case Out => '.'
    case Acc => ','
    case Jum => '['
    case Bac => ']'
  }

  lemma FromCharRoundTrip(c: char)
    requires IsCommand(c)
    ensures ToChar(FromChar(c)) == c
  {
  }

  /** The command characters of `code`, in order; comments dropped. */
  function Commands(code: string): (r: string)
    ensures |r| <= |code|
    ensures forall i :: 0 <= i < |r| ==> IsCommand(r[i])
  {
    if code == [] then []
    else (if IsCommand(code[0]) then [code[0]] else []) + Commands(code[1..])
  }

  /** The lexing `filter_map`: tokens of the characters that are not `Nan`, in source order. */
  function Lex(code: string): (r: seq<Token>)
    ensures |r| == |Commands(code)|
    ensures forall i :: 0 <= i < |r| ==> r[i] == FromChar(Commands(code)[i])
  {
    if code == [] then []
    else
      var t := FromChar(code[0]);
      (if t == Nan then [] else [t]) + Lex(code[1..])
  }

  /** Lexing yields one count-1 token per command character, never `Nan`, and spells the commands back. */
  lemma LexIsCommands(code: string)
    ensures |Lex(code)| == |Commands(code)|
    ensures forall i :: 0 <= i < |Lex(code)| ==>
      Lex(code)[i] != Nan && (Lex(code)[i].Counted() ==> Lex(code)[i].n == 1)
      && ToChar(Lex(code)[i]) == Commands(code)[i]
  {
    forall i | 0 <= i < |Lex(code)|
      ensures Lex(code)[i] != Nan && ToChar(Lex(code)[i]) == Commands(code)[i]
    {
      FromCharRoundTrip(Commands(code)[i]);
    }
  }

  /** Lexing works character by character: the lexing of a concatenation is the concatenation of the lexings. */
  lemma {:induction false} LexAppend(a: string, b: string)
    ensures Lex(a + b) == Lex(a) + Lex(b)
  {
    if a != [] {
      assert (a + b)[1..] == a[1..] + b;
      LexAppend(a[1..], b);
    } else {
      assert a + b == b;
    }
  }

  /** `contains` through the payload-ignoring equality: some token is of the kind of `probe`. */
  function Contains(tokens: seq<Token>, probe: Token): (r: bool)
    ensures r <==> exists i :: 0 <= i < |tokens| && Shape(tokens[i]) == Shape(probe)
  {
    exists i | 0 <= i < |tokens| :: Same(tokens[i], probe)
  }

  /** For a kind without a count, the payload-ignoring equality is plain equality. */
  lemma SameUncounted(t: Token, probe: Token)
    requires !probe.Counted()
    ensures Same(t, probe) <==> t == probe
  {
  }
}
