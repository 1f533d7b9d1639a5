/**
 * The per-parse context (src/core/context.rs): the input and a cursor.
 * Rust mutates the cursor in place; the model returns a new value.
 */
module Context {

  datatype ParseContext = ParseContext(input: string, position: nat)

  /** A fresh context over `s`, with the cursor at the start. */
  function New(s: string): (c: ParseContext)
    ensures Position(c) == 0 && Input(c) == s
  {
    ParseContext(s, 0)
  }

  function Input(c: ParseContext): (s: string)
    ensures |s| == Len(c)
  {
    c.input
  }

  function Position(c: ParseContext): nat {
    c.position
  }

  /** Moves the cursor; nothing else changes. */
  function SetPosition(c: ParseContext, pos: nat): (c': ParseContext)
    ensures Position(c') == pos && Input(c') == Input(c)
  {
    c.(position := pos)
  }

  /**
   * The unread suffix. Rust slices `input[position..]`, which panics past the
   * end, hence the precondition.
   */
  function Remaining(c: ParseContext): (r: string)
    requires c.position <= |c.input|
    ensures c.input[..c.position] + r == c.input
    ensures |r| == Len(c) - c.position
  {
    c.input[c.position..]
  }

  function AtEnd(c: ParseContext): bool {
    c.position >= |c.input|
  }

  function Len(c: ParseContext): nat {
    |c.input|
  }

  /** Reading the cursor after setting it gives the value set, and the input is untouched. */
  lemma SetThenGet(c: ParseContext, pos: nat)
    ensures Position(SetPosition(c, pos)) == pos
    ensures Input(SetPosition(c, pos)) == Input(c)
    ensures Len(SetPosition(c, pos)) == Len(c)
  {
  }

  /** A context is at its end exactly when nothing remains to be read. */
  lemma {:induction false} AtEndIffNothingRemains(c: ParseContext)
    requires c.position <= |c.input|
    ensures AtEnd(c) <==> Remaining(c) == []
    ensures AtEnd(c) <==> Position(c) == Len(c)
  {
    var r := Remaining(c);
    assert |r| == Len(c) - c.position;
  }
}
