/**
  The lexer (src/interpreter/lexer.rs): it maps the eight opcode characters
  to tokens and drops every other character. `TokensOf` is the pure
  filter-map that specifies it; the class `Lexer` keeps the persistent
  `cursor` field that `Tokenize` advances.
 */
module Lexing {
  import opened Options
  import opened Tokens

  /**
    The fixed recognition table; `None` marks a comment character. Exactly
    the eight characters `<>+-.,[]` are recognised, and `[`/`]` are the
    only brackets.
   */
  function TokenOf(c: char): (r: Option<Token>)
    ensures r.Some? <==> c in "<>+-.,[]"
    ensures r == Some(EnterLoop) <==> c == '['
    ensures r == Some(ExitLoop) <==> c == ']'
  {
    match c
    case '<' => Some(Left)
    case '>' => Some(Right)
    case '+' => Some(Plus)
    case '-' => Some(Minus)
    case '.' => Some(Output)
    case ',' => Some(Input)
    case '[' => Some(EnterLoop)
    case ']' => Some(ExitLoop)
    case _ => None
  }

  predicate IsOpcode(c: char) {
    TokenOf(c).Some?
  }

  /** The character a token is written as: the table read backwards. */
  function Symbol(t: Token): (c: char)
    ensures TokenOf(c) == Some(t)
  {
    match t
    case Left => '<'
    case Right => '>'
    case Plus => '+'
    case Minus => '-'
    case Output => '.'
    case Input => ','
    case EnterLoop => '['
    case ExitLoop => ']'
  }

  /** The table is one-to-one: a character yields token `t` exactly when it is `t`'s symbol. */
  lemma TableIsInjective(c: char, t: Token)
    ensures TokenOf(c) == Some(t) <==> c == Symbol(t)
  {
  }

  /** The tokens of a text, in source order: one per opcode character. */
  function TokensOf(s: seq<char>): (r: seq<Token>)
    ensures |r| <= |s|
  {
    if s == [] then []
    else
      (match TokenOf(s[0]) case Some(t) => [t] case None => []) + TokensOf(s[1..])
  }

  /** The opcode characters of a text, in order, with every comment character removed. */
  function Opcodes(s: seq<char>): seq<char> {
    if s == [] then []
    else (if IsOpcode(s[0]) then [s[0]] else []) + Opcodes(s[1..])
  }

  /** Writes tokens back as program text. */
  function Render(ts: seq<Token>): seq<char> {
    if ts == [] then [] else [Symbol(ts[0])] + Render(ts[1..])
  }

  lemma {:induction false} TokensOfAppend(a: seq<char>, b: seq<char>)
    ensures TokensOf(a + b) == TokensOf(a) + TokensOf(b)
  {
    if a == [] {
      assert a + b == b;
    } else {
      assert (a + b)[1..] == a[1..] + b;
      TokensOfAppend(a[1..], b);
    }
  }

  /** Text without opcode characters (spaces, newlines, comments) yields no tokens. */
  lemma {:induction false} CommentsYieldNothing(s: seq<char>)
    requires forall i :: 0 <= i < |s| ==> !IsOpcode(s[i])
    ensures TokensOf(s) == []
  {
    if s != [] {
      CommentsYieldNothing(s[1..]);
    }
  }

  /** Inserting comment text anywhere in a program never changes its tokens. */
  lemma InsertedCommentIsInvisible(a: seq<char>, comment: seq<char>, b: seq<char>)
    requires forall i :: 0 <= i < |comment| ==> !IsOpcode(comment[i])
    ensures TokensOf(a + comment + b) == TokensOf(a + b)
  {
    TokensOfAppend(a + comment, b);
    TokensOfAppend(a, comment);
    TokensOfAppend(a, b);
    CommentsYieldNothing(comment);
  }

  /** Rendering a token sequence and lexing it again gives the same tokens back. */
  lemma {:induction false} TokensOfRender(ts: seq<Token>)
    ensures TokensOf(Render(ts)) == ts
  {
    if ts != [] {
      TokensOfRender(ts[1..]);
      assert Render(ts)[1..] == Render(ts[1..]);
    }
  }

  /**
    The tokens of a text are exactly its opcode characters, in source order,
    read through the table: rendering them back gives the text with every
    comment character removed.
   */
  lemma {:induction false} TokensAreTheOpcodes(s: seq<char>)
    ensures Render(TokensOf(s)) == Opcodes(s)
    ensures |TokensOf(s)| == |Opcodes(s)|
  {
    if s != [] {
      TokensAreTheOpcodes(s[1..]);
      var head := match TokenOf(s[0]) case Some(t) => [t] case None => [];
      RenderAppend(head, TokensOf(s[1..]));
      if IsOpcode(s[0]) {
        TableIsInjective(s[0], TokenOf(s[0]).value);
      }
    }
  }

  lemma {:induction false} RenderAppend(a: seq<Token>, b: seq<Token>)
    ensures Render(a + b) == Render(a) + Render(b)
  {
    if a == [] {
      assert a + b == b;
    } else {
      assert (a + b)[1..] == a[1..] + b;
      RenderAppend(a[1..], b);
    }
  }

  class Lexer {
    const content: seq<char>
    var cursor: nat

    ghost predicate Valid()
      reads this
    {
      cursor <= |content|
    }

    constructor (content: seq<char>)
      ensures Valid() && this.content == content && cursor == 0
    {
      this.content := content;
      cursor := 0;
    }

    /**
      Lexes the text from `cursor` to the end, moving `cursor` one character
      per iteration. The cursor is never reset, so a second call returns no tokens.
     */
    method Tokenize() returns (tokens: seq<Token>)
      requires Valid()
      modifies this`cursor
      ensures Valid() && cursor == |content|
      ensures tokens == TokensOf(content[old(cursor)..])
    {
      ghost var from := cursor;
      tokens := [];
      while cursor < |content|
        invariant from <= cursor <= |content|
        invariant tokens == TokensOf(content[from..cursor])
      {
        var token := TokenOf(content[cursor]);
        assert content[from..cursor + 1] == content[from..cursor] + [content[cursor]];
        TokensOfAppend(content[from..cursor], [content[cursor]]);
        if token.Some? {
          tokens := tokens + [token.value];
        }
        cursor := cursor + 1;
      }
      assert content[from..cursor] == content[from..];
    }
  }

  /** A fresh lexer lexes the whole text once; asked again, it returns nothing. */
  method TokenizeTwice(content: seq<char>) returns (first: seq<Token>, second: seq<Token>)
    ensures first == TokensOf(content)
    ensures second == []
  {
    var lexer := new Lexer(content);
    first := lexer.Tokenize();
    assert content[0..] == content;
    second := lexer.Tokenize();
  }
}
