/** The access list of a house (guests, sub-owners) or of a door
    (house.cpp, class AccessList).

    A list is written by players as newline-separated rule text. Parsing keeps
    the raw text for display and derives three membership sources from it: a
    set of player ids, a set of guild ids, and an ordered list of signed
    wildcard rules. A membership query consults the rules first, in order, and
    the first rule that matches the lower-cased player name decides; only when
    no rule matches do the id sets decide. Name and guild lookups in the player
    database are a `Directory` value. */
module AccessLists {
  import opened Wrappers
  import Glob

  /** The player attributes the access checks read. `access` is the
      administrative privilege level. */
  datatype Player = Player(name: string, guid: nat, guildId: nat, access: nat)

  /** The player database as far as access lists and houses use it: the
      resolutions `getGuidByName`, `getGuilIdByName` and `getNameByGuid`.
      A name that is not a key does not resolve. */
  datatype Directory = Directory(
    guidByName: map<string, nat>,
    guildIdByName: map<string, nat>,
    nameByGuid: map<nat, string>)

  /** One compiled wildcard rule: `allow` is false for a rule written with a
      leading `!`. */
  datatype Rule = Rule(allow: bool, pattern: Glob.Pattern)

  /** `expressions` holds the regular-expression text of every stored rule
      and `rules` the compiled rule at the same index. */
  datatype AccessList = AccessList(
    text: string,
    players: set<nat>,
    guilds: set<nat>,
    expressions: seq<string>,
    rules: seq<Rule>)

  /** Rule lines longer than this are ignored. */
  const MaxLineLength := 100

  /** A freshly constructed list: no text, no members. */
  const Empty := AccessList("", {}, {}, [], [])

  // ---------------------------------------------------------------------
  // Text helpers
  // ---------------------------------------------------------------------

  function LowerChar(c: char): char {
    if 'A' <= c <= 'Z' then (c as int + 32) as char else c
  }

  /** `std::transform(..., tolower)` in the C locale. */
  function ToLower(s: string): string {
    seq(|s|, i requires 0 <= i < |s| => LowerChar(s[i]))
  }

  /** Drops the leading run of `c`. */
  function TrimLeft(s: string, c: char): string
    decreases |s|
  {
    if |s| > 0 && s[0] == c then TrimLeft(s[1..], c) else s
  }

  /** TrimLeft removes exactly the leading run of `c`: the result is a suffix
      that does not start with `c`, and everything removed is `c`. */
  lemma {:induction false} TrimLeftRemovesLeadingRun(s: string, c: char)
    ensures var r := TrimLeft(s, c);
            && |r| <= |s| && r == s[|s| - |r|..]
            && (|r| == 0 || r[0] != c)
            && forall i :: 0 <= i < |s| - |r| ==> s[i] == c
    decreases |s|
  {
    if |s| > 0 && s[0] == c {
      TrimLeftRemovesLeadingRun(s[1..], c);
      var r := TrimLeft(s, c);
      assert s[1..][|s| - 1 - |r|..] == s[|s| - |r|..];
      forall i | 0 <= i < |s| - |r| ensures s[i] == c {
        if i > 0 {
          assert s[1..][i - 1] == s[i];
        }
      }
    }
  }

  /** Drops the trailing run of `c`. */
  function TrimRight(s: string, c: char): string
    decreases |s|
  {
    if |s| > 0 && s[|s| - 1] == c then TrimRight(s[..|s| - 1], c) else s
  }

  /** TrimRight removes exactly the trailing run of `c`. */
  lemma {:induction false} TrimRightRemovesTrailingRun(s: string, c: char)
    ensures var r := TrimRight(s, c);
            && |r| <= |s| && r == s[..|r|]
            && (|r| == 0 || r[|r| - 1] != c)
            && forall i :: |r| <= i < |s| ==> s[i] == c
    decreases |s|
  {
    if |s| > 0 && s[|s| - 1] == c {
      var s' := s[..|s| - 1];
      TrimRightRemovesTrailingRun(s', c);
      var r := TrimRight(s, c);
      assert s'[..|r|] == s[..|r|];
      forall i | |r| <= i < |s| ensures s[i] == c {
        if i < |s| - 1 {
          assert s'[i] == s[i];
        }
      }
    }
  }

  /** The trimming and lower-casing applied to every line: leading spaces,
      then leading tabs, trailing spaces, then trailing tabs. */
  function Normalize(line: string): string {
    ToLower(TrimRight(TrimRight(TrimLeft(TrimLeft(line, ' '), '\t'), ' '), '\t'))
  }

  function IndexOf(s: string, c: char): (i: nat)
    ensures i <= |s|
    ensures i < |s| ==> s[i] == c
    ensures forall j :: 0 <= j < i ==> s[j] != c
    decreases |s|
  {
    if |s| == 0 then 0 else if s[0] == c then 0 else 1 + IndexOf(s[1..], c)
  }

  /** The lines `getline` yields: split at every newline; a final newline
      does not start another line. */
  function Lines(s: string): seq<string>
    decreases |s|
  {
    if |s| == 0 then []
    else
      var i := IndexOf(s, '\n');
      if i == |s| then [s] else [s[..i]] + Lines(s[i + 1..])
  }

  /** Each line followed by a newline: the inverse of Lines. */
  function Unlines(ls: seq<string>): string
    decreases |ls|
  {
    if |ls| == 0 then [] else ls[0] + "\n" + Unlines(ls[1..])
  }

  /** How Lines unfolds on a text with a newline. */
  lemma LinesStep(s: string)
    requires IndexOf(s, '\n') < |s|
    ensures var i := IndexOf(s, '\n');
            && Lines(s) == [s[..i]] + Lines(s[i + 1..])
            && s == s[..i] + "\n" + s[i + 1..]
            && '\n' !in s[..i]
  {
    var i := IndexOf(s, '\n');
    LinesUnfold(s, i);
    SplitAtNewline(s, i);
    NoneBefore(s, i, '\n');
  }

  lemma LinesWithoutNewline(s: string, i: nat)
    requires 0 < |s| && i == IndexOf(s, '\n') && i == |s|
    ensures Lines(s) == [s]
  {
  }

  lemma LinesUnfold(s: string, i: nat)
    requires i == IndexOf(s, '\n') && i < |s|
    ensures Lines(s) == [s[..i]] + Lines(s[i + 1..])
  {
  }

  lemma SplitAtNewline(s: string, i: nat)
    requires i < |s| && s[i] == '\n'
    ensures s == s[..i] + "\n" + s[i + 1..]
  {
    assert s == s[..i] + s[i..];
    assert s[i..] == [s[i]] + s[i + 1..];
  }

  lemma NoneBefore(s: string, i: nat, c: char)
    requires i <= |s| && forall j :: 0 <= j < i ==> s[j] != c
    ensures c !in s[..i]
  {
    forall j | 0 <= j < i ensures s[..i][j] != c {
      assert s[..i][j] == s[j];
    }
  }

  /** Splitting loses nothing: the lines, each newline-terminated, give back
      the text (with a newline added when the text did not end in one). */
  lemma {:induction false} LinesRoundTrip(s: string)
    ensures Unlines(Lines(s)) == if |s| == 0 || s[|s| - 1] == '\n' then s else s + "\n"
    decreases |s|
  {
    if |s| > 0 {
      var i := IndexOf(s, '\n');
      if i == |s| {
        LinesWithoutNewline(s, i);
        assert Unlines([s]) == s + "\n" + Unlines([]);
      } else {
        var rest := s[i + 1..];
        LinesStep(s);
        LinesRoundTrip(rest);
        UnlinesCons(s[..i], Lines(rest));
        TerminatedJoin(s[..i], rest, Unlines(Lines(rest)));
      }
    }
  }

  /** Joining a line, a newline and a remainder: the text ends in a newline
      iff a non-empty remainder does. */
  lemma TerminatedJoin(a: string, rest: string, u: string)
    requires u == if |rest| == 0 || rest[|rest| - 1] == '\n' then rest else rest + "\n"
    ensures var s := a + "\n" + rest;
            a + "\n" + u == if s[|s| - 1] == '\n' then s else s + "\n"
  {
    var s := a + "\n" + rest;
    if |rest| == 0 {
      assert s == a + "\n";
    } else {
      assert s[|s| - 1] == rest[|rest| - 1];
      if rest[|rest| - 1] != '\n' {
        assert a + "\n" + (rest + "\n") == s + "\n";
      }
    }
  }

  lemma UnlinesCons(l: string, ls: seq<string>)
    ensures Unlines([l] + ls) == l + "\n" + Unlines(ls)
  {
    assert ([l] + ls)[1..] == ls;
  }

  /** No line holds a newline. */
  lemma {:induction false} LinesHaveNoNewline(s: string)
    ensures forall k :: 0 <= k < |Lines(s)| ==> '\n' !in Lines(s)[k]
    decreases |s|
  {
    if |s| > 0 && IndexOf(s, '\n') < |s| {
      var rest := s[IndexOf(s, '\n') + 1..];
      LinesStep(s);
      LinesHaveNoNewline(rest);
      forall k | 0 <= k < |Lines(s)| ensures '\n' !in Lines(s)[k] {
        if k > 0 {
          assert Lines(s)[k] == Lines(rest)[k - 1];
        }
      }
    }
  }

  // ---------------------------------------------------------------------
  // Line classification
  // ---------------------------------------------------------------------

  datatype Entry =
    | Skipped
    | GuildName(guild: string)
    | Expression(expr: string)
    | PlayerName(player: string)

  /** What a normalized line contributes. Comments and over-long lines are
      skipped; a line with `@` names the guild after its first `@` whatever
      else it holds; otherwise a line with `!`, `*` or `?` is a rule; any
      other line is a player name. */
  function Classify(line: string): Entry
  {
    if |line| > 0 && line[0] == '#' then Skipped
    else if |line| > MaxLineLength then Skipped
    else if '@' in line then GuildName(line[IndexOf(line, '@') + 1..])
    else if '!' in line || '*' in line || '?' in line then Expression(line)
    else PlayerName(line)
  }

  /** The classification of a normalized line, case by case: comments and
      over-long lines are skipped; a line with `@` names the guild after its
      first `@` even if it also holds `!`, `*` or `?`; otherwise such a line is
      a rule; anything else is a player name. */
  lemma ClassifyLine(line: string)
    ensures var e := Classify(line);
            && (e.Skipped? <==> (|line| > 0 && line[0] == '#') || |line| > MaxLineLength)
            && (e.GuildName? <==> !e.Skipped? && '@' in line)
            && (e.GuildName? ==>
                  var k := |line| - |e.guild| - 1;
                  0 <= k && line[k] == '@' && '@' !in line[..k] && e.guild == line[k + 1..])
            && (e.Expression? <==> !e.Skipped? && '@' !in line && ('!' in line || '*' in line || '?' in line))
            && (e.Expression? ==> e.expr == line)
            && (e.PlayerName? <==> !e.Skipped? && '@' !in line && '!' !in line && '*' !in line && '?' !in line)
            && (e.PlayerName? ==> e.player == line)
  {
    var e := Classify(line);
    if e.GuildName? {
      var k := IndexOf(line, '@');
      assert |line| - |e.guild| - 1 == k;
      assert forall j :: 0 <= j < k ==> line[..k][j] == line[j];
    }
  }

  // ---------------------------------------------------------------------
  // Adding entries
  // ---------------------------------------------------------------------

  /** The compiled form of a rule line. */
  function RuleOf(expr: string): Rule {
    if |expr| > 0 && expr[0] == '!' then Rule(false, Glob.FromRaw(expr[1..]))
    else Rule(true, Glob.FromRaw(expr))
  }

  /** A stored expression text and its compiled rule agree: the rule is
      negative iff the text starts with `!`, and the rest of the text is a
      regular expression that reads back as the rule's pattern. */
  predicate Compiles(t: string, r: Rule) {
    var negative := |t| > 0 && t[0] == '!';
    && r.allow == !negative
    && Glob.ParseRegex(if negative then t[1..] else t) == Some(r.pattern)
  }

  predicate WellFormed(acl: AccessList) {
    && |acl.rules| == |acl.expressions|
    && forall i :: 0 <= i < |acl.rules| ==> Compiles(acl.expressions[i], acl.rules[i])
  }

  /** Resolves a player name and records the id; the flag is true iff the
      id was not yet present. */
  function AddPlayer(acl: AccessList, dir: Directory, name: string): (r: (AccessList, bool))
    ensures r.0.players == acl.players + (if name in dir.guidByName then {dir.guidByName[name]} else {})
    ensures r.0 == acl.(players := r.0.players)
    ensures r.1 <==> name in dir.guidByName && dir.guidByName[name] !in acl.players
  {
    if name in dir.guidByName && dir.guidByName[name] !in acl.players then
      (acl.(players := acl.players + {dir.guidByName[name]}), true)
    else
      (acl, false)
  }

  /** Resolves a guild name and records its id; guild id 0 is never recorded. */
  function AddGuild(acl: AccessList, dir: Directory, guild: string): (r: (AccessList, bool))
    ensures r.0.guilds == acl.guilds +
              (if guild in dir.guildIdByName && dir.guildIdByName[guild] != 0
               then {dir.guildIdByName[guild]} else {})
    ensures 0 in r.0.guilds ==> 0 in acl.guilds
    ensures r.0 == acl.(guilds := r.0.guilds)
    ensures r.1 <==> guild in dir.guildIdByName && dir.guildIdByName[guild] != 0 &&
                     dir.guildIdByName[guild] !in acl.guilds
  {
    if guild in dir.guildIdByName && dir.guildIdByName[guild] != 0 &&
       dir.guildIdByName[guild] !in acl.guilds then
      (acl.(guilds := acl.guilds + {dir.guildIdByName[guild]}), true)
    else
      (acl, false)
  }

  /** Appends a rule. The duplicate check compares the raw line with the
      expression texts already stored, which are escaped and rewritten, so a
      repeated wildcard rule is stored again while a line that equals an
      earlier rule's expression text is refused. */
  function AddExpression(acl: AccessList, expr: string): (r: (AccessList, bool))
    requires WellFormed(acl)
    ensures WellFormed(r.0)
    ensures r.1 <==> expr !in acl.expressions
    ensures r.1 ==> r.0 == acl.(expressions := acl.expressions + [Glob.RegexText(expr)],
                                rules := acl.rules + [RuleOf(expr)])
    ensures !r.1 ==> r.0 == acl
  {
    if expr in acl.expressions then (acl, false)
    else
      var t := Glob.RegexText(expr);
      var rule := RuleOf(expr);
      CompiledRuleAgrees(expr);
      var r' := acl.(expressions := acl.expressions + [t], rules := acl.rules + [rule]);
      assert forall i :: 0 <= i < |acl.rules| ==> r'.rules[i] == acl.rules[i] && r'.expressions[i] == acl.expressions[i];
      (r', true)
  }

  /** The regular expression stored for a rule line denotes the rule's
      compiled pattern, with the polarity of its leading `!`. */
  lemma CompiledRuleAgrees(expr: string)
    ensures Compiles(Glob.RegexText(expr), RuleOf(expr))
  {
    Glob.RegexTextNegation(expr);
    if |expr| > 0 && expr[0] == '!' {
      Glob.RegexTextDenotesPattern(expr[1..]);
    } else {
      Glob.RegexTextDenotesPattern(expr);
    }
  }

  // ---------------------------------------------------------------------
  // Parsing
  // ---------------------------------------------------------------------

  /** The entry each line of a list text contributes, in line order. */
  function Entries(text: string): seq<Entry> {
    EntriesOf(Lines(text))
  }

  function EntriesOf(ls: seq<string>): (es: seq<Entry>)
    ensures |es| == |ls|
    decreases |ls|
  {
    if |ls| == 0 then [] else [Classify(Normalize(ls[0]))] + EntriesOf(ls[1..])
  }

  /** Entry `i` is the classification of line `i`. */
  lemma {:induction false} EntriesOfIndex(ls: seq<string>, i: nat)
    requires i < |ls|
    ensures EntriesOf(ls)[i] == Classify(Normalize(ls[i]))
    decreases i
  {
    if i > 0 {
      EntriesOfIndex(ls[1..], i - 1);
    }
  }

  /** The player id an entry adds: a player name that resolves. */
  function PlayerOf(dir: Directory, e: Entry): Option<nat> {
    if e.PlayerName? && e.player in dir.guidByName then Some(dir.guidByName[e.player]) else None
  }

  /** The guild id an entry adds: a guild name that resolves to a non-zero id. */
  function GuildOf(dir: Directory, e: Entry): Option<nat> {
    if e.GuildName? && e.guild in dir.guildIdByName && dir.guildIdByName[e.guild] != 0
    then Some(dir.guildIdByName[e.guild]) else None
  }

  function OptSet(o: Option<nat>): set<nat> {
    if o.Some? then {o.value} else {}
  }

  /** One line's effect, dispatched on its classification. */
  function AddEntry(acl: AccessList, dir: Directory, e: Entry): (r: AccessList)
    requires WellFormed(acl)
    ensures WellFormed(r) && r.text == acl.text
    ensures r.players == acl.players + OptSet(PlayerOf(dir, e))
    ensures r.guilds == acl.guilds + OptSet(GuildOf(dir, e))
    ensures !e.Expression? ==> r.expressions == acl.expressions && r.rules == acl.rules
    ensures e.Expression? && e.expr in acl.expressions ==>
              r.expressions == acl.expressions && r.rules == acl.rules
    ensures e.Expression? && e.expr !in acl.expressions ==>
              && r.expressions == acl.expressions + [Glob.RegexText(e.expr)]
              && r.rules == acl.rules + [RuleOf(e.expr)]
  {
    match e
    case Skipped => acl
    case GuildName(g) => AddGuild(acl, dir, g).0
    case Expression(x) => AddExpression(acl, x).0
    case PlayerName(n) => AddPlayer(acl, dir, n).0
  }

  function ParseEntries(acl: AccessList, dir: Directory, es: seq<Entry>): (r: AccessList)
    requires WellFormed(acl)
    ensures WellFormed(r) && r.text == acl.text
    decreases |es|
  {
    if |es| == 0 then acl else ParseEntries(AddEntry(acl, dir, es[0]), dir, es[1..])
  }

  /** `parseList`: every source is rebuilt from the text alone, so nothing of
      the previous contents survives, and the raw text is kept verbatim. */
  function ParseList(dir: Directory, text: string): (r: AccessList)
    ensures r.text == text
    ensures text == "" ==> r.players == {} && r.guilds == {} && r.expressions == [] && r.rules == []
    ensures WellFormed(r)
    ensures 0 !in r.guilds
  {
    var cleared := AccessList(text, {}, {}, [], []);
    if text == "" then cleared
    else
      var r := ParseEntries(cleared, dir, Entries(text));
      ParsedGuilds(cleared, dir, Entries(text), 0);
      r
  }

  /** `getList`: the text of the last parse. */
  function GetList(acl: AccessList): string {
    acl.text
  }

  /** The list text reads back exactly as written, comments and blank lines
      included, although parsing ignores them. */
  lemma ParseThenGetList(dir: Directory, text: string)
    ensures GetList(ParseList(dir, text)) == text
  {
  }

  lemma {:induction false} ParsedPlayers(acl: AccessList, dir: Directory, es: seq<Entry>, g: nat)
    requires WellFormed(acl)
    ensures g in ParseEntries(acl, dir, es).players <==>
            g in acl.players || exists i :: 0 <= i < |es| && PlayerOf(dir, es[i]) == Some(g)
    decreases |es|
  {
    if |es| > 0 {
      var next := AddEntry(acl, dir, es[0]);
      ParsedPlayers(next, dir, es[1..], g);
      if exists i :: 0 <= i < |es| && PlayerOf(dir, es[i]) == Some(g) {
        var i :| 0 <= i < |es| && PlayerOf(dir, es[i]) == Some(g);
        if i > 0 {
          assert es[1..][i - 1] == es[i];
        }
      }
      if exists i :: 0 <= i < |es[1..]| && PlayerOf(dir, es[1..][i]) == Some(g) {
        var i :| 0 <= i < |es[1..]| && PlayerOf(dir, es[1..][i]) == Some(g);
        assert es[i + 1] == es[1..][i];
      }
    }
  }

  lemma {:induction false} ParsedGuilds(acl: AccessList, dir: Directory, es: seq<Entry>, g: nat)
    requires WellFormed(acl)
    ensures g in ParseEntries(acl, dir, es).guilds <==>
            g in acl.guilds || exists i :: 0 <= i < |es| && GuildOf(dir, es[i]) == Some(g)
    decreases |es|
  {
    if |es| > 0 {
      var next := AddEntry(acl, dir, es[0]);
      ParsedGuilds(next, dir, es[1..], g);
      if exists i :: 0 <= i < |es| && GuildOf(dir, es[i]) == Some(g) {
        var i :| 0 <= i < |es| && GuildOf(dir, es[i]) == Some(g);
        if i > 0 {
          assert es[1..][i - 1] == es[i];
        }
      }
      if exists i :: 0 <= i < |es[1..]| && GuildOf(dir, es[1..][i]) == Some(g) {
        var i :| 0 <= i < |es[1..]| && GuildOf(dir, es[1..][i]) == Some(g);
        assert es[i + 1] == es[1..][i];
      }
    }
  }

  /** The player ids of a parsed list are exactly the resolved names of its
      player lines. */
  lemma ParseListPlayers(dir: Directory, text: string, g: nat)
    ensures g in ParseList(dir, text).players <==>
            exists i :: 0 <= i < |Entries(text)| && PlayerOf(dir, Entries(text)[i]) == Some(g)
  {
    if text != "" {
      ParsedPlayers(AccessList(text, {}, {}, [], []), dir, Entries(text), g);
    }
  }

  /** The guild ids of a parsed list are exactly the non-zero resolved ids of
      its guild lines. */
  lemma ParseListGuilds(dir: Directory, text: string, g: nat)
    ensures g in ParseList(dir, text).guilds <==>
            exists i :: 0 <= i < |Entries(text)| && GuildOf(dir, Entries(text)[i]) == Some(g)
  {
    if text != "" {
      ParsedGuilds(AccessList(text, {}, {}, [], []), dir, Entries(text), g);
    }
  }

  /** Rules are appended in line order: the earlier rules stay a prefix. */
  lemma {:induction false} ParsedExpressionsPrefix(acl: AccessList, dir: Directory, es: seq<Entry>)
    requires WellFormed(acl)
    ensures acl.expressions <= ParseEntries(acl, dir, es).expressions
    decreases |es|
  {
    if |es| > 0 {
      ParsedExpressionsPrefix(AddEntry(acl, dir, es[0]), dir, es[1..]);
    }
  }

  // ---------------------------------------------------------------------
  // Rule order
  // ---------------------------------------------------------------------

  /** The texts of the rule lines among `es`, in line order. */
  function RuleLines(es: seq<Entry>): (ls: seq<string>)
    ensures |ls| <= |es|
    decreases |es|
  {
    if |es| == 0 then []
    else (if es[0].Expression? then [es[0].expr] else []) + RuleLines(es[1..])
  }

  /** The rule lines the duplicate check lets through, in line order, when
      the texts `stored` are already present: a line equal to a stored text
      is refused, and a line let through stores its expression text. */
  function Kept(stored: seq<string>, ls: seq<string>): (r: seq<string>)
    ensures |r| <= |ls|
    decreases |ls|
  {
    if |ls| == 0 then []
    else if ls[0] in stored then Kept(stored, ls[1..])
    else [ls[0]] + Kept(stored + [Glob.RegexText(ls[0])], ls[1..])
  }

  function Texts(ls: seq<string>): seq<string> {
    seq(|ls|, i requires 0 <= i < |ls| => Glob.RegexText(ls[i]))
  }

  function RulesOf(ls: seq<string>): seq<Rule> {
    seq(|ls|, i requires 0 <= i < |ls| => RuleOf(ls[i]))
  }

  /** What a parse stores for its rule lines: the expression texts and the
      compiled rules of the lines the duplicate check lets through, appended
      after the earlier ones in line order. */
  lemma {:induction false} ParsedRules(acl: AccessList, dir: Directory, es: seq<Entry>)
    requires WellFormed(acl)
    ensures var r := ParseEntries(acl, dir, es);
            var kept := Kept(acl.expressions, RuleLines(es));
            && r.expressions == acl.expressions + Texts(kept)
            && r.rules == acl.rules + RulesOf(kept)
    decreases |es|
  {
    if |es| > 0 {
      var next := AddEntry(acl, dir, es[0]);
      var r := ParseEntries(next, dir, es[1..]);
      assert ParseEntries(acl, dir, es) == r;
      ParsedRules(next, dir, es[1..]);
      KeptStep(acl.expressions, es);
      var rest := RuleLines(es[1..]);
      if es[0].Expression? && es[0].expr !in acl.expressions {
        var x := es[0].expr;
        var k := Kept(next.expressions, rest);
        CompiledCons(x, k);
        assert next.expressions == acl.expressions + [Glob.RegexText(x)];
        assert next.rules == acl.rules + [RuleOf(x)];
        Associative(acl.expressions, [Glob.RegexText(x)], Texts(k));
        Associative(acl.rules, [RuleOf(x)], RulesOf(k));
      } else {
        assert next.expressions == acl.expressions && next.rules == acl.rules;
      }
    }
  }

  /** Lines are applied one after another: the last line acts on the list
      the lines before it built. */
  lemma {:induction false} ParseEntriesAppend(acl: AccessList, dir: Directory, es: seq<Entry>, e: Entry)
    requires WellFormed(acl)
    ensures ParseEntries(acl, dir, es + [e]) == AddEntry(ParseEntries(acl, dir, es), dir, e)
    decreases |es|
  {
    if |es| == 0 {
      assert es + [e] == [e];
      assert [e][1..] == [];
    } else {
      assert (es + [e])[0] == es[0] && (es + [e])[1..] == es[1..] + [e];
      ParseEntriesAppend(AddEntry(acl, dir, es[0]), dir, es[1..], e);
    }
  }

  lemma Associative<T>(a: seq<T>, b: seq<T>, c: seq<T>)
    ensures (a + b) + c == a + (b + c)
  {
  }

  /** One rule line through the duplicate check, in the terms ParsedRules
      needs. */
  lemma KeptStep(stored: seq<string>, es: seq<Entry>)
    requires |es| > 0
    ensures var rest := RuleLines(es[1..]);
            && (!es[0].Expression? || es[0].expr in stored ==>
                  Kept(stored, RuleLines(es)) == Kept(stored, rest))
            && (es[0].Expression? && es[0].expr !in stored ==>
                  Kept(stored, RuleLines(es)) ==
                  [es[0].expr] + Kept(stored + [Glob.RegexText(es[0].expr)], rest))
  {
    var rest := RuleLines(es[1..]);
    if es[0].Expression? {
      var x := es[0].expr;
      assert RuleLines(es) == [x] + rest;
      assert ([x] + rest)[1..] == rest;
    } else {
      assert RuleLines(es) == rest;
    }
  }

  lemma CompiledCons(x: string, k: seq<string>)
    ensures Texts([x] + k) == [Glob.RegexText(x)] + Texts(k)
    ensures RulesOf([x] + k) == [RuleOf(x)] + RulesOf(k)
  {
    assert Texts([x] + k) == [Glob.RegexText(x)] + Texts(k);
    assert RulesOf([x] + k) == [RuleOf(x)] + RulesOf(k);
  }

  /** The rules of a parsed list are exactly the compiled rule lines the
      duplicate check lets through, in line order, and the stored texts are
      their expression texts. */
  lemma ParseListRules(dir: Directory, text: string)
    ensures var r := ParseList(dir, text);
            var kept := Kept([], RuleLines(Entries(text)));
            r.expressions == Texts(kept) && r.rules == RulesOf(kept)
  {
    if text != "" {
      ParsedRules(AccessList(text, {}, {}, [], []), dir, Entries(text));
    } else {
      assert Lines(text) == [];
    }
  }

  /** Only rule lines are let through. */
  lemma {:induction false} KeptFromLines(stored: seq<string>, ls: seq<string>)
    ensures forall l :: l in Kept(stored, ls) ==> l in ls
    decreases |ls|
  {
    if |ls| > 0 {
      KeptFromLines(stored, ls[1..]);
      KeptFromLines(stored + [Glob.RegexText(ls[0])], ls[1..]);
    }
  }

  /** A rule line that is not let through equals a text stored before it:
      one of `stored`, or the expression text of an earlier line. */
  lemma {:induction false} KeptCoversLines(stored: seq<string>, ls: seq<string>)
    ensures forall l :: l in ls ==> l in Kept(stored, ls) || l in stored + Texts(Kept(stored, ls))
    decreases |ls|
  {
    if |ls| > 0 {
      var x := ls[0];
      assert ls == [x] + ls[1..];
      if x in stored {
        KeptCoversLines(stored, ls[1..]);
      } else {
        var s' := stored + [Glob.RegexText(x)];
        var k := Kept(s', ls[1..]);
        KeptCoversLines(s', ls[1..]);
        KeptTexts(stored, x, k);
      }
    }
  }

  lemma KeptTexts(stored: seq<string>, x: string, k: seq<string>)
    ensures forall l :: l in k ==> l in [x] + k
    ensures stored + [Glob.RegexText(x)] + Texts(k) == stored + Texts([x] + k)
  {
    CompiledCons(x, k);
    Associative(stored, [Glob.RegexText(x)], Texts(k));
  }

  /** No rule line equals the expression text of an earlier one. */
  predicate NoRefusal(ls: seq<string>) {
    forall i, j :: 0 <= i < j < |ls| ==> ls[j] != Glob.RegexText(ls[i])
  }

  /** When no line clashes with a stored text or an earlier line's
      expression text, every rule line is let through, in order. */
  lemma {:induction false} KeptAllWithoutClashes(stored: seq<string>, ls: seq<string>)
    requires forall j :: 0 <= j < |ls| ==> ls[j] !in stored
    requires NoRefusal(ls)
    ensures Kept(stored, ls) == ls
    decreases |ls|
  {
    if |ls| > 0 {
      var s' := stored + [Glob.RegexText(ls[0])];
      forall j | 0 <= j < |ls[1..]|
        ensures ls[1..][j] !in s'
      {
        assert ls[1..][j] == ls[j + 1];
      }
      forall i, j | 0 <= i < j < |ls[1..]|
        ensures ls[1..][j] != Glob.RegexText(ls[1..][i])
      {
        assert ls[1..][j] == ls[j + 1] && ls[1..][i] == ls[i + 1];
      }
      KeptAllWithoutClashes(s', ls[1..]);
      assert [ls[0]] + ls[1..] == ls;
    }
  }

  lemma {:induction false} RuleLinesAppend(a: seq<Entry>, b: seq<Entry>)
    ensures RuleLines(a + b) == RuleLines(a) + RuleLines(b)
    decreases |a|
  {
    if |a| == 0 {
      assert a + b == b;
    } else {
      assert (a + b)[0] == a[0] && (a + b)[1..] == a[1..] + b;
      RuleLinesAppend(a[1..], b);
    }
  }

  /** The rule line at `i` is the rule line numbered by the rule lines
      before it. */
  lemma RuleLineAt(es: seq<Entry>, i: nat)
    requires i < |es| && es[i].Expression?
    ensures |RuleLines(es[..i + 1])| == |RuleLines(es[..i])| + 1
    ensures |RuleLines(es[..i])| < |RuleLines(es)|
    ensures RuleLines(es)[|RuleLines(es[..i])|] == es[i].expr
  {
    assert es == es[..i] + es[i..];
    RuleLinesAppend(es[..i], es[i..]);
    assert es[i..][0] == es[i] && es[i..][1..] == es[i + 1..];
    assert RuleLines(es[i..]) == [es[i].expr] + RuleLines(es[i + 1..]);
    assert es[..i + 1] == es[..i] + [es[i]];
    RuleLinesAppend(es[..i], [es[i]]);
    assert [es[i]][1..] == [];
  }

  /** Rule lines keep their order: of two rule lines, the earlier one comes
      first among the rule lines. */
  lemma RuleLinesInOrder(es: seq<Entry>, i: nat, k: nat)
    requires i < k < |es| && es[i].Expression? && es[k].Expression?
    ensures var a := |RuleLines(es[..i])|;
            var b := |RuleLines(es[..k])|;
            && a < b < |RuleLines(es)|
            && RuleLines(es)[a] == es[i].expr
            && RuleLines(es)[b] == es[k].expr
  {
    RuleLineAt(es, i);
    RuleLineAt(es, k);
    assert es[..k] == es[..i + 1] + es[i + 1..k];
    RuleLinesAppend(es[..i + 1], es[i + 1..k]);
  }

  /** In a list whose rule lines are all let through, the rule of an
      earlier line comes before the rule of a later one, so the later rule
      never decides a name the earlier one matches. */
  lemma ParsedRulesFollowLines(dir: Directory, text: string, i: nat, k: nat)
    requires i < k < |Entries(text)|
    requires Entries(text)[i].Expression? && Entries(text)[k].Expression?
    requires NoRefusal(RuleLines(Entries(text)))
    ensures var r := ParseList(dir, text);
            var es := Entries(text);
            var a := |RuleLines(es[..i])|;
            var b := |RuleLines(es[..k])|;
            && a < b < |r.rules|
            && r.rules[a] == RuleOf(es[i].expr)
            && r.rules[b] == RuleOf(es[k].expr)
            && forall n :: Glob.Matches(r.rules[a].pattern, n) ==> !DecidedBy(r.rules, n, b)
  {
    var es := Entries(text);
    ParseListRules(dir, text);
    KeptAllWithoutClashes([], RuleLines(es));
    RuleLinesInOrder(es, i, k);
  }

  // ---------------------------------------------------------------------
  // Membership
  // ---------------------------------------------------------------------

  /** Rule `i` is the first rule whose pattern matches `name`. */
  ghost predicate DecidedBy(rules: seq<Rule>, name: string, i: int) {
    && 0 <= i < |rules|
    && Glob.Matches(rules[i].pattern, name)
    && forall j :: 0 <= j < i ==> !Glob.Matches(rules[j].pattern, name)
  }

  /** The polarity of the first matching rule, if any rule matches. */
  function FirstMatch(rules: seq<Rule>, name: string): (r: Option<bool>)
    ensures r.None? <==> forall i :: 0 <= i < |rules| ==> !Glob.Matches(rules[i].pattern, name)
    ensures r.Some? ==> exists i :: DecidedBy(rules, name, i) && rules[i].allow == r.value
    decreases |rules|
  {
    if |rules| == 0 then None
    else if Glob.Matches(rules[0].pattern, name) then
      assert DecidedBy(rules, name, 0);
      Some(rules[0].allow)
    else
      var r := FirstMatch(rules[1..], name);
      assert forall i :: 1 <= i < |rules| ==> rules[i] == rules[1..][i - 1];
      assert r.Some? ==> exists i :: DecidedBy(rules, name, i) && rules[i].allow == r.value by {
        if r.Some? {
          var i :| DecidedBy(rules[1..], name, i) && rules[1..][i].allow == r.value;
          assert DecidedBy(rules, name, i + 1);
        }
      }
      r
  }

  /** `isInList`: the first rule matching the lower-cased name decides; only
      if none matches does membership of the player id or guild id decide. */
  function IsInList(acl: AccessList, p: Player): bool {
    match FirstMatch(acl.rules, ToLower(p.name))
    case Some(allow) => allow
    case None => p.guid in acl.players || p.guildId in acl.guilds
  }

  lemma FirstRuleIsUnique(rules: seq<Rule>, name: string, i: int, k: int)
    requires DecidedBy(rules, name, i) && DecidedBy(rules, name, k)
    ensures i == k
  {
  }

  /** A matching rule overrides the id sets: the first rule that matches
      the lower-cased name gives the answer, whatever the player and guild
      sets hold. */
  lemma FirstMatchingRuleDecides(acl: AccessList, p: Player, i: int)
    requires DecidedBy(acl.rules, ToLower(p.name), i)
    ensures IsInList(acl, p) == acl.rules[i].allow
  {
    var r := FirstMatch(acl.rules, ToLower(p.name));
    var k :| DecidedBy(acl.rules, ToLower(p.name), k) && acl.rules[k].allow == r.value;
    FirstRuleIsUnique(acl.rules, ToLower(p.name), i, k);
  }

  /** With no matching rule, membership is exactly id-set membership. */
  lemma NoMatchingRuleUsesSets(acl: AccessList, p: Player)
    requires forall i :: 0 <= i < |acl.rules| ==> !Glob.Matches(acl.rules[i].pattern, ToLower(p.name))
    ensures IsInList(acl, p) <==> p.guid in acl.players || p.guildId in acl.guilds
  {
  }

  // ---------------------------------------------------------------------
  // Worked examples
  // ---------------------------------------------------------------------

  /** The duplicate check looks at stored expression texts: `a?` is stored
      as `a.?`, so a later line `a.?` is refused, and a name such as `a.z`
      that only the refused rule would have admitted stays out; a repeated
      `a?` line is stored a second time. */
  lemma DuplicateCheckComparesWithExpressionText()
    ensures var (one, _) := AddExpression(Empty, "a?");
            && one.expressions == ["a.?"]
            && !AddExpression(one, "a.?").1
            && AddExpression(one, "a?").1
            && !IsInList(AddExpression(one, "a.?").0, Player("a.z", 1, 0, 0))
  {
    OptRuleText();
    var one := AddExpression(Empty, "a?").0;
    assert one.rules == [RuleOf("a?")];
    OptRuleRejects();
    assert FirstMatch(one.rules, ToLower("a.z")) == None by {
      assert ToLower("a.z") == "a.z";
    }
  }

  /** The rule line `a?` is stored as `a.?` and compiles to `a` and one
      optional character. */
  lemma OptRuleText()
    ensures Glob.RegexText("a?") == "a.?"
    ensures RuleOf("a?") == Rule(true, [Glob.Lit('a'), Glob.Opt])
  {
    Glob.RegexTextCons("a?");
    Glob.RegexTextCons("?");
    assert "a?"[1..] == "?" && "?"[1..] == [];
  }

  lemma OptRuleRejects()
    ensures !Glob.Matches([Glob.Lit('a'), Glob.Opt], "a.z")
  {
    var p := [Glob.Lit('a'), Glob.Opt];
    assert p[1..] == [Glob.Opt] && p[1..][1..] == [];
    assert "a.z"[1..] == ".z" && ".z"[1..] == "z";
    assert !Glob.Matches([], ".z") && !Glob.Matches([], "z");
    assert !Glob.Matches([Glob.Opt], ".z");
  }

  /** A line that is already lower-case and has no surrounding blanks is
      left as it is by normalization. */
  lemma NormalizeKeepsCleanLine(line: string)
    requires |line| == 0 || (line[0] != ' ' && line[0] != '\t' && line[|line| - 1] != ' ' && line[|line| - 1] != '\t')
    requires forall i :: 0 <= i < |line| ==> !('A' <= line[i] <= 'Z')
    ensures Normalize(line) == line
  {
  }

  lemma {:induction false} IndexOfAbsent(a: string, c: char, rest: string)
    requires c !in a
    ensures IndexOf(a + rest, c) == |a| + IndexOf(rest, c)
    decreases |a|
  {
    if |a| > 0 {
      assert (a + rest)[0] == a[0];
      assert (a + rest)[1..] == a[1..] + rest;
      IndexOfAbsent(a[1..], c, rest);
    } else {
      assert a + rest == rest;
    }
  }

  /** A line without a newline, followed by a newline, is the first line. */
  lemma LinesCons(a: string, rest: string)
    requires '\n' !in a
    ensures Lines(a + "\n" + rest) == [a] + Lines(rest)
  {
    var s := a + "\n" + rest;
    assert s == a + ("\n" + rest);
    IndexOfAbsent(a, '\n', "\n" + rest);
    assert s[..|a|] == a;
    assert s[|a| + 1..] == rest;
  }

  /** A non-empty text without a newline is a single line. */
  lemma LinesSingle(a: string)
    requires |a| > 0 && '\n' !in a
    ensures Lines(a) == [a]
  {
    assert IndexOf(a, '\n') == |a|;
  }

  /** A name that is its own rule line: lower-case, no blanks, newlines or
      rule characters. */
  predicate PlainName(n: string) {
    && 0 < |n| < MaxLineLength
    && forall i :: 0 <= i < |n| ==> n[i] !in " \t\n@!*?#" && !('A' <= n[i] <= 'Z')
  }

  lemma PlainNameLines(n: string, g: string)
    requires PlainName(n) && PlainName(g)
    ensures Lines(n + "\n!" + n + "\n@" + g) == [n, "!" + n, "@" + g]
  {
    var l1, l2, l3 := n, "!" + n, "@" + g;
    assert n + "\n!" + n + "\n@" + g == l1 + "\n" + (l2 + "\n" + l3);
    assert '\n' !in l1;
    assert '\n' !in l2 by {
      assert forall i :: 0 < i < |l2| ==> l2[i] == n[i - 1];
    }
    assert '\n' !in l3 by {
      assert forall i :: 0 < i < |l3| ==> l3[i] == g[i - 1];
    }
    LinesCons(l1, l2 + "\n" + l3);
    LinesCons(l2, l3);
    LinesSingle(l3);
  }

  lemma PlainNameEntry(n: string)
    requires PlainName(n)
    ensures Classify(Normalize(n)) == PlayerName(n)
  {
    NormalizeKeepsCleanLine(n);
    ClassifyLine(n);
  }

  lemma NegatedNameEntry(n: string)
    requires PlainName(n)
    ensures Classify(Normalize("!" + n)) == Expression("!" + n)
  {
    var l := "!" + n;
    assert forall i :: 0 < i < |l| ==> l[i] == n[i - 1];
    NormalizeKeepsCleanLine(l);
    ClassifyLine(l);
  }

  lemma GuildLineEntry(g: string)
    requires PlainName(g)
    ensures Classify(Normalize("@" + g)) == GuildName(g)
  {
    var l := "@" + g;
    assert forall i :: 0 < i < |l| ==> l[i] == g[i - 1];
    NormalizeKeepsCleanLine(l);
    assert IndexOf(l, '@') == 0;
    assert l[1..] == g;
  }

  lemma PlainLineEntries(n: string, g: string)
    requires PlainName(n) && PlainName(g)
    ensures Entries(n + "\n!" + n + "\n@" + g) == [PlayerName(n), Expression("!" + n), GuildName(g)]
  {
    var ls := [n, "!" + n, "@" + g];
    PlainNameLines(n, g);
    var es := EntriesOf(ls);
    assert es[0] == PlayerName(n) by {
      EntriesOfIndex(ls, 0);
      PlainNameEntry(n);
    }
    assert es[1] == Expression("!" + n) by {
      EntriesOfIndex(ls, 1);
      NegatedNameEntry(n);
    }
    assert es[2] == GuildName(g) by {
      EntriesOfIndex(ls, 2);
      GuildLineEntry(g);
    }
  }

  /** A name listed both plainly and as a negative rule, plus a guild line:
      the negative rule shuts that player out although the name resolved
      and the guild was recorded, while any other member of the guild is
      admitted through the guild set (the list `john`, `!john`, `@knights`). */
  lemma NegatedRuleOverridesNameAndGuild(dir: Directory, n: string, g: string, p: Player, q: Player)
    requires PlainName(n) && PlainName(g)
    requires n in dir.guidByName && g in dir.guildIdByName && dir.guildIdByName[g] != 0
    requires ToLower(p.name) == n
    requires ToLower(q.name) != n && q.guildId == dir.guildIdByName[g]
    ensures var acl := ParseList(dir, n + "\n!" + n + "\n@" + g);
            && dir.guidByName[n] in acl.players && dir.guildIdByName[g] in acl.guilds
            && !IsInList(acl, p)
            && IsInList(acl, q)
  {
    var acl := ParseList(dir, n + "\n!" + n + "\n@" + g);
    NameRuleGuildParse(dir, n, g);
    var rule := RuleOf("!" + n);
    assert ("!" + n)[1..] == n;
    assert !rule.allow && rule.pattern == Glob.FromRaw(n);
    assert !Glob.HasWildcard(n) by {
      assert forall i :: 0 <= i < |n| ==> n[i] != '*' && n[i] != '?';
    }
    Glob.LiteralMatchesExactly(n, n);
    Glob.LiteralMatchesExactly(n, ToLower(q.name));
    assert DecidedBy(acl.rules, n, 0);
    FirstMatchingRuleDecides(acl, p, 0);
    NoMatchingRuleUsesSets(acl, q);
  }

  /** What parsing the list `n`, `!n`, `@g` records. */
  lemma NameRuleGuildParse(dir: Directory, n: string, g: string)
    requires PlainName(n) && PlainName(g)
    requires n in dir.guidByName && g in dir.guildIdByName && dir.guildIdByName[g] != 0
    ensures var acl := ParseList(dir, n + "\n!" + n + "\n@" + g);
            && dir.guidByName[n] in acl.players && dir.guildIdByName[g] in acl.guilds
            && acl.rules == [RuleOf("!" + n)]
  {
    var text := n + "\n!" + n + "\n@" + g;
    PlainLineEntries(n, g);
    var es := Entries(text);
    var a0 := AccessList(text, {}, {}, [], []);
    var a1 := AddEntry(a0, dir, es[0]);
    var a2 := AddEntry(a1, dir, es[1]);
    var a3 := AddEntry(a2, dir, es[2]);
    assert a2.rules == [RuleOf("!" + n)];
    assert a3.rules == a2.rules;
    assert es[1..][1..][1..] == [];
    assert text != "" by { assert |text| > |n|; }
    assert ParseEntries(a2, dir, es[1..][1..]) == a3;
    assert ParseEntries(a1, dir, es[1..]) == a3;
    assert ParseEntries(a0, dir, es) == a3;
  }
}
