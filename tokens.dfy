/** The tokens and lines of an instance file, and Python's readline at end of file. */
module Tokens {

  /** A whitespace-separated token, classified by what Python's int() and float() make of it. */
  datatype Token =
    | IntLit(v: int)      // int(tok) == v, and float(tok) == v
    | FloatLit(x: real)   // float(tok) == x, while int(tok) raises ValueError
    | Other               // both int(tok) and float(tok) raise ValueError

  /** A line after str.split(). */
  type Line = seq<Token>

  predicate IsNumber(t: Token) {
    !t.Other?
  }

  /** float(tok), for a token that float() accepts. */
  function Number(t: Token): real
    requires IsNumber(t)
  {
    match t
    case IntLit(v) => v as real
    case FloatLit(x) => x
  }

  predicate AllInts(ts: seq<Token>) {
    forall i :: 0 <= i < |ts| ==> ts[i].IntLit?
  }

  /** The ints of a run of integer tokens, in order. */
  function IntValues(ts: seq<Token>): (vs: seq<int>)
    requires AllInts(ts)
    ensures |vs| == |ts|
    ensures forall i :: 0 <= i < |ts| ==> vs[i] == ts[i].v
  {
    seq(|ts|, i requires 0 <= i < |ts| => ts[i].v)
  }

  /** Growing an integer run by one integer token appends its value. */
  lemma IntValuesSnoc(ts: seq<Token>, j: nat)
    requires j < |ts| && AllInts(ts[..j]) && ts[j].IntLit?
    ensures AllInts(ts[..j + 1])
    ensures IntValues(ts[..j + 1]) == IntValues(ts[..j]) + [ts[j].v]
  {
    assert forall i :: 0 <= i < j + 1 ==> ts[..j + 1][i] == (if i < j then ts[..j][i] else ts[j]);
  }

  /** Two integer runs side by side are one integer run, whose values are theirs in order. */
  lemma IntValuesAppend(a: seq<Token>, b: seq<Token>)
    requires AllInts(a) && AllInts(b)
    ensures AllInts(a + b)
    ensures IntValues(a + b) == IntValues(a) + IntValues(b)
  {
    assert forall i :: 0 <= i < |a + b| ==> (a + b)[i] == if i < |a| then a[i] else b[i - |a|];
    var vs := IntValues(a) + IntValues(b);
    assert forall i :: 0 <= i < |a + b| ==> IntValues(a + b)[i] == vs[i];
  }

  /** The tokens of consecutive lines, as one stream. */
  function Concat(ls: seq<Line>): Line {
    if ls == [] then [] else ls[0] + Concat(ls[1..])
  }

  /** readline().split() at cursor `pos`: past the last line it gives an empty line. */
  function LineAt(lines: seq<Line>, pos: nat): Line {
    if pos < |lines| then lines[pos] else []
  }

  /** The cursor after one readline: it stops at end of file. */
  function Next(lines: seq<Line>, pos: nat): (p: nat)
    ensures pos <= |lines| ==> p <= |lines|
  {
    if pos < |lines| then pos + 1 else pos
  }
}
