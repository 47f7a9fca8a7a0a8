/**
 * The fragment of Python's `re` needed by the field validators: a pattern is
 * a sequence of quantified character classes (`\d{4}`, `-`, `\+?`, `[A-Z]+`),
 * anchored with `^` and `$`. `RegexValidator` calls `re.search`, and without
 * the MULTILINE flag `$` matches at the end of the string OR just before a
 * newline that ends the string.
 */
module Regex {
  import opened Wrappers

  datatype CharClass = Digit | Upper | Literal(c: char)

  /** `\d` (ASCII digits), `[A-Z]`, or one literal character. */
  predicate InClass(k: CharClass, c: char) {
    match k
    case Digit => '0' <= c <= '9'
    case Upper => 'A' <= c <= 'Z'
    case Literal(x) => c == x
  }

  /** A character class repeated between `min` and `max` times; `max == None` is unbounded (`+`). */
  datatype Piece = Piece(k: CharClass, min: nat, max: Option<nat>)

  predicate CountFits(p: Piece, n: nat) {
    p.min <= n && (p.max.None? || n <= p.max.value)
  }

  predicate AllIn(k: CharClass, s: string) {
    forall i :: 0 <= i < |s| ==> InClass(k, s[i])
  }

  /** `s` splits into consecutive chunks, one per piece, each of a count the piece allows. */
  predicate MatchesAll(ps: seq<Piece>, s: string)
    decreases |ps|
  {
    if ps == [] then s == []
    else exists n :: 0 <= n <= |s| && CountFits(ps[0], n) && AllIn(ps[0].k, s[..n]) && MatchesAll(ps[1..], s[n..])
  }

  /** `re.search("^P$", s)` succeeds: `$` also accepts one final newline. */
  predicate SearchAnchored(ps: seq<Piece>, s: string) {
    MatchesAll(ps, s) || (|s| > 0 && s[|s| - 1] == '\n' && MatchesAll(ps, s[..|s| - 1]))
  }

  /** One more piece in front: the chunk `s[..n]` for `p`, the rest for `ps`. */
  lemma MatchesCons(p: Piece, ps: seq<Piece>, s: string, n: nat)
    requires n <= |s| && CountFits(p, n) && AllIn(p.k, s[..n]) && MatchesAll(ps, s[n..])
    ensures MatchesAll([p] + ps, s)
  {
    assert ([p] + ps)[1..] == ps;
  }

  /** A single piece matches exactly the strings of an allowed length made of its class. */
  lemma MatchesSingle(p: Piece, s: string)
    ensures MatchesAll([p], s) <==> CountFits(p, |s|) && AllIn(p.k, s)
  {
    assert [p][1..] == [];
    if CountFits(p, |s|) && AllIn(p.k, s) {
      assert s[..|s|] == s;
      MatchesCons(p, [], s, |s|);
    }
    if MatchesAll([p], s) {
      var n :| 0 <= n <= |s| && CountFits(p, n) && AllIn(p.k, s[..n]) && MatchesAll([], s[n..]);
      assert n == |s|;
      assert s[..n] == s;
    }
  }

  /** No piece pattern matches a string with a character outside every class used. */
  lemma {:induction false} MatchesAllIn(ps: seq<Piece>, s: string, i: nat)
    requires MatchesAll(ps, s) && i < |s|
    ensures exists j :: 0 <= j < |ps| && InClass(ps[j].k, s[i])
    decreases |ps|
  {
    var n :| 0 <= n <= |s| && CountFits(ps[0], n) && AllIn(ps[0].k, s[..n]) && MatchesAll(ps[1..], s[n..]);
    if i < n {
      assert s[..n][i] == s[i];
    } else {
      MatchesAllIn(ps[1..], s[n..], i - n);
      var j :| 0 <= j < |ps[1..]| && InClass(ps[1..][j].k, s[n..][i - n]);
      assert ps[j + 1] == ps[1..][j];
    }
  }

  /** A piece of fixed count `m` in front consumes exactly the first `m` characters. */
  lemma MatchesFixedThen(p: Piece, ps: seq<Piece>, s: string)
    requires p.max == Some(p.min)
    ensures MatchesAll([p] + ps, s) <==>
      p.min <= |s| && AllIn(p.k, s[..p.min]) && MatchesAll(ps, s[p.min..])
  {
    assert ([p] + ps)[1..] == ps;
    if p.min <= |s| && AllIn(p.k, s[..p.min]) && MatchesAll(ps, s[p.min..]) {
      MatchesCons(p, ps, s, p.min);
    }
  }

  /** A match of `c?` in front consumed nothing or one `c`. */
  lemma MatchesOptionalElim(c: char, ps: seq<Piece>, s: string)
    requires MatchesAll([Piece(Literal(c), 0, Some(1))] + ps, s)
    ensures MatchesAll(ps, s) || (|s| > 0 && s[0] == c && MatchesAll(ps, s[1..]))
  {
    var p := Piece(Literal(c), 0, Some(1));
    assert ([p] + ps)[1..] == ps;
    var n :| 0 <= n <= |s| && CountFits(p, n) && AllIn(p.k, s[..n]) && MatchesAll(ps, s[n..]);
    if n == 0 {
      assert s[0..] == s;
    } else {
      assert s[..n][0] == s[0];
    }
  }

  /** An optional literal `c?` in front either consumes nothing or consumes one `c`. */
  lemma MatchesOptionalThen(c: char, ps: seq<Piece>, s: string)
    ensures MatchesAll([Piece(Literal(c), 0, Some(1))] + ps, s) <==>
      MatchesAll(ps, s) || (|s| > 0 && s[0] == c && MatchesAll(ps, s[1..]))
  {
    var p := Piece(Literal(c), 0, Some(1));
    if MatchesAll(ps, s) {
      assert s[..0] == [] && s[0..] == s;
      MatchesCons(p, ps, s, 0);
    } else if |s| > 0 && s[0] == c && MatchesAll(ps, s[1..]) {
      MatchesCons(p, ps, s, 1);
    } else if MatchesAll([p] + ps, s) {
      MatchesOptionalElim(c, ps, s);
    }
  }
}
