/** Wildcard rules of house access lists.

    The server turns a rule line such as `!bad*guy?` into a regular expression:
    it escapes the characters `.[{}()\+|^$`, then rewrites `*` to `.*` and `?`
    to `.?`. Every regular expression built this way is a sequence of escaped
    literal characters, `.*` and `.?`. This module represents such an expression
    as a list of atoms, matches it against a whole string, and proves that the
    expression text the server builds reads back as exactly that list. */
module Glob {
  import opened Wrappers

  datatype Atom = Lit(c: char) | Star | Opt

  type Pattern = seq<Atom>

  /** Characters escaped with a backslash before the wildcards are rewritten. */
  const MetaChars: string := ".[{}()\\+|^$"

  /** Whole-string match: `Star` consumes any run of characters, `Opt` at
      most one, `Lit(c)` exactly `c`. This is the meaning `regex_match` gives
      to `.*`, `.?` and an escaped literal. */
  predicate Matches(p: Pattern, s: string)
    decreases |p|, |s|
  {
    if |p| == 0 then |s| == 0
    else match p[0]
      case Lit(c) => |s| > 0 && s[0] == c && Matches(p[1..], s[1..])
      case Star => Matches(p[1..], s) || (|s| > 0 && Matches(p, s[1..]))
      case Opt => Matches(p[1..], s) || (|s| > 0 && Matches(p[1..], s[1..]))
  }

  function AtomOf(c: char): Atom {
    if c == '*' then Star else if c == '?' then Opt else Lit(c)
  }

  /** The pattern a raw rule text stands for, one atom per character. */
  function FromRaw(raw: string): Pattern {
    seq(|raw|, i requires 0 <= i < |raw| => AtomOf(raw[i]))
  }

  predicate HasWildcard(raw: string) {
    '*' in raw || '?' in raw
  }

  // ---------------------------------------------------------------------
  // The regular-expression text built from a rule (house.cpp addExpression)
  // ---------------------------------------------------------------------

  function EscapeChar(c: char): string {
    if c in MetaChars then ['\\', c] else [c]
  }

  function Escape(s: string): string
    decreases |s|
  {
    if |s| == 0 then [] else EscapeChar(s[0]) + Escape(s[1..])
  }

  /** Replaces every occurrence of `c` by `rep`, left to right, without
      rescanning the inserted text. */
  function ReplaceChar(s: string, c: char, rep: string): string
    decreases |s|
  {
    if |s| == 0 then []
    else (if s[0] == c then rep else [s[0]]) + ReplaceChar(s[1..], c, rep)
  }

  /** The expression text stored for a rule: escape, then `*` to `.*`, then
      `?` to `.?`. */
  function RegexText(raw: string): string {
    ReplaceChar(ReplaceChar(Escape(raw), '*', ".*"), '?', ".?")
  }

  /** What one raw character becomes in the expression text. */
  function RegexToken(c: char): string {
    if c == '*' then ".*"
    else if c == '?' then ".?"
    else if c in MetaChars then ['\\', c]
    else [c]
  }

  function Prepend(a: Atom, o: Option<Pattern>): Option<Pattern> {
    match o
    case Some(p) => Some([a] + p)
    case None => None
  }

  /** Reads an expression made only of escaped metacharacters, `.*`, `.?` and
      plain characters back into atoms; None for any other expression. */
  function ParseRegex(r: string): Option<Pattern>
    decreases |r|
  {
    if |r| == 0 then Some([])
    else if r[0] == '\\' then
      if |r| >= 2 && r[1] in MetaChars then Prepend(Lit(r[1]), ParseRegex(r[2..])) else None
    else if r[0] == '.' then
      if |r| >= 2 && r[1] == '*' then Prepend(Star, ParseRegex(r[2..]))
      else if |r| >= 2 && r[1] == '?' then Prepend(Opt, ParseRegex(r[2..]))
      else None
    else if r[0] in MetaChars || r[0] == '*' || r[0] == '?' then None
    else Prepend(Lit(r[0]), ParseRegex(r[1..]))
  }

  lemma {:induction false} ReplaceCharAppend(a: string, b: string, c: char, rep: string)
    ensures ReplaceChar(a + b, c, rep) == ReplaceChar(a, c, rep) + ReplaceChar(b, c, rep)
    decreases |a|
  {
    if |a| == 0 {
      assert a + b == b;
    } else {
      assert (a + b)[0] == a[0];
      assert (a + b)[1..] == a[1..] + b;
      ReplaceCharAppend(a[1..], b, c, rep);
    }
  }

  /** One escaped character, after both rewrites, is its token. */
  lemma RewrittenEscape(c: char)
    ensures ReplaceChar(ReplaceChar(EscapeChar(c), '*', ".*"), '?', ".?") == RegexToken(c)
  {
    var e := EscapeChar(c);
    if c in MetaChars {
      assert ReplaceChar(e, '*', ".*") == e;
      assert ReplaceChar(e, '?', ".?") == e;
    } else if c == '*' {
      assert ReplaceChar(e, '*', ".*") == ".*";
      assert ReplaceChar(".*", '?', ".?") == ".*";
    } else if c == '?' {
      assert ReplaceChar(e, '*', ".*") == "?";
    }
  }

  /** The expression text is built character by character. */
  lemma RegexTextCons(raw: string)
    requires |raw| > 0
    ensures RegexText(raw) == RegexToken(raw[0]) + RegexText(raw[1..])
  {
    var e := EscapeChar(raw[0]);
    var rest := Escape(raw[1..]);
    assert Escape(raw) == e + rest;
    ReplaceCharAppend(e, rest, '*', ".*");
    ReplaceCharAppend(ReplaceChar(e, '*', ".*"), ReplaceChar(rest, '*', ".*"), '?', ".?");
    RewrittenEscape(raw[0]);
  }

  lemma ParseToken(c: char, rest: string)
    ensures ParseRegex(RegexToken(c) + rest) == Prepend(AtomOf(c), ParseRegex(rest))
  {
    var t := RegexToken(c) + rest;
    if c == '*' || c == '?' || c in MetaChars {
      assert t[2..] == rest;
    } else {
      assert t[1..] == rest;
    }
  }

  /** The regular expression the server builds from a rule denotes exactly the
      wildcard pattern of the rule text: every expression text produced by
      RegexText reads back, and reads back as FromRaw. */
  lemma {:induction false} RegexTextDenotesPattern(raw: string)
    ensures ParseRegex(RegexText(raw)) == Some(FromRaw(raw))
    decreases |raw|
  {
    if |raw| == 0 {
      assert RegexText(raw) == [];
    } else {
      RegexTextCons(raw);
      ParseToken(raw[0], RegexText(raw[1..]));
      RegexTextDenotesPattern(raw[1..]);
      assert FromRaw(raw) == [AtomOf(raw[0])] + FromRaw(raw[1..]);
    }
  }

  /** A leading `!` is kept as the first character of the expression text, and
      no other rule text yields a text starting with `!`. */
  lemma RegexTextNegation(raw: string)
    ensures |RegexText(raw)| > 0 && RegexText(raw)[0] == '!' <==> |raw| > 0 && raw[0] == '!'
    ensures |raw| > 0 && raw[0] == '!' ==> RegexText(raw)[1..] == RegexText(raw[1..])
  {
    if |raw| > 0 {
      RegexTextCons(raw);
    } else {
      assert RegexText(raw) == [];
    }
  }

  // ---------------------------------------------------------------------
  // Properties of matching
  // ---------------------------------------------------------------------

  /** A rule without `*` or `?` matches exactly its own text. */
  lemma {:induction false} LiteralMatchesExactly(raw: string, s: string)
    requires !HasWildcard(raw)
    ensures Matches(FromRaw(raw), s) <==> s == raw
    decreases |raw|
  {
    var p := FromRaw(raw);
    if |raw| > 0 {
      assert p[0] == Lit(raw[0]);
      assert p[1..] == FromRaw(raw[1..]);
      assert !HasWildcard(raw[1..]) by {
        forall i | 0 <= i < |raw[1..]| ensures raw[1..][i] != '*' && raw[1..][i] != '?' {
          assert raw[1..][i] == raw[i + 1];
        }
      }
      if |s| > 0 {
        LiteralMatchesExactly(raw[1..], s[1..]);
        if s[0] == raw[0] && s[1..] == raw[1..] {
          assert s == [s[0]] + s[1..] && raw == [raw[0]] + raw[1..];
        }
      }
    }
  }

  /** `Star` followed by `p` matches `s` iff `p` matches some suffix of `s`:
      the usual meaning of `.*`. */
  lemma {:induction false} StarMatchesSomeSuffix(p: Pattern, s: string)
    ensures Matches([Star] + p, s) <==> exists k :: 0 <= k <= |s| && Matches(p, s[k..])
    decreases |s|
  {
    var q := [Star] + p;
    assert q[0] == Star && q[1..] == p;
    if Matches(q, s) {
      if Matches(p, s) {
        assert s[0..] == s;
      } else {
        StarMatchesSomeSuffix(p, s[1..]);
        var k :| 0 <= k <= |s[1..]| && Matches(p, s[1..][k..]);
        assert s[1..][k..] == s[k + 1..];
      }
    }
    if exists k :: 0 <= k <= |s| && Matches(p, s[k..]) {
      var k :| 0 <= k <= |s| && Matches(p, s[k..]);
      if k == 0 {
        assert s[0..] == s;
      } else {
        assert s[1..][k - 1..] == s[k..];
        StarMatchesSomeSuffix(p, s[1..]);
      }
    }
  }

  /** A pattern that is a lone `Star` matches every string. */
  lemma StarMatchesEverything(s: string)
    ensures Matches([Star], s)
  {
    assert [Star] == [Star] + [];
    assert Matches([], s[|s|..]);
    StarMatchesSomeSuffix([], s);
  }

  /** A lone `Opt` matches exactly the strings of length at most one. */
  lemma OptMatchesAtMostOne(s: string)
    ensures Matches([Opt], s) <==> |s| <= 1
  {
    var p: Pattern := [Opt];
    assert p[1..] == [];
  }

  /** Matching is compositional: matches of two patterns concatenate. */
  lemma {:induction false} MatchesConcat(p1: Pattern, s1: string, p2: Pattern, s2: string)
    requires Matches(p1, s1) && Matches(p2, s2)
    ensures Matches(p1 + p2, s1 + s2)
    decreases |p1|, |s1|
  {
    if |p1| == 0 {
      assert p1 + p2 == p2 && s1 + s2 == s2;
    } else {
      var p := p1 + p2;
      var s := s1 + s2;
      assert p[0] == p1[0] && p[1..] == p1[1..] + p2;
      match p1[0]
      case Lit(c) =>
        MatchesConcat(p1[1..], s1[1..], p2, s2);
        assert s[1..] == s1[1..] + s2;
      case Star =>
        if Matches(p1[1..], s1) {
          MatchesConcat(p1[1..], s1, p2, s2);
        } else {
          MatchesConcat(p1, s1[1..], p2, s2);
          assert s[1..] == s1[1..] + s2;
        }
      case Opt =>
        if Matches(p1[1..], s1) {
          MatchesConcat(p1[1..], s1, p2, s2);
        } else {
          MatchesConcat(p1[1..], s1[1..], p2, s2);
          assert s[1..] == s1[1..] + s2;
        }
    }
  }
}
