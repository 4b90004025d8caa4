/**
 * The rival-code commands of bots/codes.py, `!ddrrival` and `!iidxrival`:
 * the action check, the validation of `create` (name length, the
 * `####-####` code, the dan rank), the `key=value` filters of `search` and
 * `update`, the text of a search result, and the reply for each answer of
 * the rival store. The store itself is a stub: its answers are inputs.
 */
module RivalCodes {
  import opened Wrappers
  import opened Text

  /** The two commands share their logic and differ in name, limit and wording. */
  datatype Game = Ddr | Iidx

  function CommandName(g: Game): string {
    match g
    case Ddr => "ddrrival"
    case Iidx => "iidxrival"
  }

  /** The longest dancer (DDR) or DJ (IIDX) name. */
  function NameLimit(g: Game): nat {
    match g
    case Ddr => 8
    case Iidx => 6
  }

  datatype Action = Create | Search | Update | Delete

  /** `action not in actions`, where a missing action is `None`. */
  function ParseAction(action: Option<string>): (r: Option<Action>)
    ensures r.Some? <==> action.Some? && action.value in ["create", "search", "update", "delete"]
  {
    match action
    case None => None
    case Some(a) =>
      if a == "create" then Some(Create)
      else if a == "search" then Some(Search)
      else if a == "update" then Some(Update)
      else if a == "delete" then Some(Delete)
      else None
  }

  // ---------------------------------------------------------------------
  // The patterns of `re.search`.
  // ---------------------------------------------------------------------

  /**
   * `re.search("^...$", s)` for a pattern whose language is `body`: `^`
   * holds only at the start, and `$` at the end or just before a final
   * line break.
   */
  predicate Anchored(body: string -> bool, s: string) {
    body(s) || (|s| > 0 && s[|s| - 1] == '\n' && body(s[..|s| - 1]))
  }

  /** `[0-9]{4}-[0-9]{4}`, the whole text. */
  predicate CodeBody(s: string) {
    |s| == 9 && AllDigits(s[..4]) && s[4] == '-' && AllDigits(s[5..])
  }

  /** `re.search("^[0-9]{4}-[0-9]{4}$", code)`. */
  predicate CodeMatches(code: string) {
    Anchored(CodeBody, code)
  }

  /** A code is accepted exactly when it is four digits, a dash and four digits, perhaps with a line break after. */
  lemma CodeMatchesIff(code: string)
    ensures CodeMatches(code) <==>
      exists a, b :: |a| == 4 && |b| == 4 && AllDigits(a) && AllDigits(b)
                     && (code == a + "-" + b || code == a + "-" + b + "\n")
  {
    if CodeMatches(code) {
      var body := if CodeBody(code) then code else code[..|code| - 1];
      assert body == body[..4] + "-" + body[5..];
      if !CodeBody(code) {
        assert code == body + "\n";
      }
    }
    if exists a, b :: |a| == 4 && |b| == 4 && AllDigits(a) && AllDigits(b)
                      && (code == a + "-" + b || code == a + "-" + b + "\n") {
      var a, b :| |a| == 4 && |b| == 4 && AllDigits(a) && AllDigits(b)
                  && (code == a + "-" + b || code == a + "-" + b + "\n");
      var body := a + "-" + b;
      assert body[..4] == a && body[5..] == b;
      if code != body {
        assert code[..|code| - 1] == body;
      }
    }
  }

  /** `(10|[1-9])(DAN|KYU)|CHUU|KAI`, the whole text. */
  predicate RankBody(r: string) {
    r == "CHUU" || r == "KAI"
    || (|r| >= 4 && (r[|r| - 3..] == "DAN" || r[|r| - 3..] == "KYU")
        && (r[..|r| - 3] == "10" || (|r| == 4 && '1' <= r[0] <= '9')))
  }

  /** `re.search("^((10|[1-9])(DAN|KYU)|CHUU|KAI)$", rank)`. */
  predicate RankMatches(rank: string) {
    Anchored(RankBody, rank)
  }

  /** The ranks the pattern spells out: "1DAN" to "10DAN", "1KYU" to "10KYU", "CHUU" and "KAI". */
  lemma RankBodyIff(r: string)
    ensures RankBody(r) <==>
      r == "CHUU" || r == "KAI"
      || exists n :: 1 <= n <= 10 && (r == Decimal(n) + "DAN" || r == Decimal(n) + "KYU")
  {
    if RankBody(r) && r != "CHUU" && r != "KAI" {
      var n := if r[..|r| - 3] == "10" then 10 else DigitValue(r[0]);
      if n == 10 {
        assert Decimal(10) == Decimal(1) + [Digit(0)] == "10";
      } else {
        assert Decimal(n) == [r[0]];
      }
      assert r == Decimal(n) + r[|r| - 3..];
    }
    if exists n :: 1 <= n <= 10 && (r == Decimal(n) + "DAN" || r == Decimal(n) + "KYU") {
      var n :| 1 <= n <= 10 && (r == Decimal(n) + "DAN" || r == Decimal(n) + "KYU");
      if n == 10 {
        assert Decimal(10) == Decimal(1) + [Digit(0)] == "10";
      }
      assert r[..|r| - 3] == Decimal(n);
    }
  }

  // ---------------------------------------------------------------------
  // `create`.
  // ---------------------------------------------------------------------

  /** What `create` stores: the upper-cased name, the code as given, and the rank if one was given. */
  datatype Entry = Entry(name: string, code: string, rank: Option<string>)

  /** The reasons `create` refuses its arguments, in the order it checks them. */
  datatype CreateError = MissingArguments | BadName | BadCode | BadRank

  /**
   * The validation of `create`: at least two arguments; the name upper-cased
   * and non-empty and within the limit; the code matching `####-####`; the
   * rank, if given and not empty, upper-cased and matching the rank pattern.
   */
  function ValidateCreate(g: Game, args: seq<string>): Result<Entry, CreateError> {
    if |args| < 2 then Err(MissingArguments)
    else
      var name := Upper(args[0]);
      var code := args[1];
      var rank := if |args| > 2 then Some(Upper(args[2])) else None;
      if name == "" || |name| > NameLimit(g) then Err(BadName)
      else if !CodeMatches(code) then Err(BadCode)
      else if rank.Some? && rank.value != "" && !RankMatches(rank.value) then Err(BadRank)
      else Ok(Entry(name, code, rank))
  }

  /** The name `create` checks. */
  predicate NameOk(g: Game, arg: string) {
    1 <= |arg| <= NameLimit(g)
  }

  /** The optional rank `create` checks: absent, empty, or a rank once upper-cased. */
  predicate RankOk(args: seq<string>) {
    |args| > 2 ==> args[2] == "" || RankMatches(Upper(args[2]))
  }

  /**
   * Each refusal is for the first check that fails, and `create` accepts
   * exactly the arguments that pass them all.
   */
  lemma ValidateCreateOrder(g: Game, args: seq<string>)
    ensures ValidateCreate(g, args) == Err(MissingArguments) <==> |args| < 2
    ensures ValidateCreate(g, args) == Err(BadName) <==> |args| >= 2 && !NameOk(g, args[0])
    ensures ValidateCreate(g, args) == Err(BadCode) <==>
      |args| >= 2 && NameOk(g, args[0]) && !CodeMatches(args[1])
    ensures ValidateCreate(g, args) == Err(BadRank) <==>
      |args| >= 2 && NameOk(g, args[0]) && CodeMatches(args[1]) && !RankOk(args)
    ensures ValidateCreate(g, args).Ok? <==>
      |args| >= 2 && NameOk(g, args[0]) && CodeMatches(args[1]) && RankOk(args)
  {
    if |args| > 2 {
      assert (Upper(args[2]) == "") == (args[2] == "");
    }
  }

  /** An accepted entry: the name upper-cased and within the limit, the code verbatim, the rank upper-cased. */
  lemma ValidateCreateEntry(g: Game, args: seq<string>)
    requires ValidateCreate(g, args).Ok?
    ensures var e := ValidateCreate(g, args).value;
      1 <= |e.name| <= NameLimit(g)
      && Lower(e.name) == Lower(args[0])
      && (forall i :: 0 <= i < |e.name| ==> !('a' <= e.name[i] <= 'z'))
      && e.code == args[1] && CodeBody(e.code[..9])
      && (e.rank.Some? <==> |args| > 2)
      && (e.rank.Some? ==> Lower(e.rank.value) == Lower(args[2]))
      && (e.rank.Some? ==> forall i :: 0 <= i < |e.rank.value| ==> !('a' <= e.rank.value[i] <= 'z'))
  {
    LowerUpper(args[0]);
    if |args| > 2 {
      LowerUpper(args[2]);
    }
    var code := args[1];
    if CodeBody(code) {
      assert code[..9] == code;
    } else {
      assert code[..|code| - 1] == code[..9];
    }
  }

  // ---------------------------------------------------------------------
  // The `key=value` filters of `search` and `update`.
  // ---------------------------------------------------------------------

  /** `AVAILABLE_ATTRIBUTES`. */
  const Attributes: seq<string> := ["name", "code", "rank"]

  /** The reasons the filters are refused. */
  datatype FilterError = MissingFilters | MalformedFilter | UnknownKey(key: string)

  /** An argument split on "=" into exactly a key and a value, the key an attribute. */
  predicate GoodFilter(arg: string) {
    |Split(arg, '=')| == 2 && Split(arg, '=')[0] in Attributes
  }

  function Key(arg: string): string {
    Split(arg, '=')[0]
  }

  function Value(arg: string): string
    requires |Split(arg, '=')| == 2
  {
    Split(arg, '=')[1]
  }

  /** The loop over the arguments, from the filters gathered so far: the first bad argument stops it. */
  function CollectFilters(args: seq<string>, acc: map<string, string>): Result<map<string, string>, FilterError>
    decreases |args|
  {
    if |args| == 0 then Ok(acc)
    else
      var parts := Split(args[0], '=');
      if |parts| != 2 then Err(MalformedFilter)
      else if parts[0] !in Attributes then Err(UnknownKey(parts[0]))
      else CollectFilters(args[1..], acc[parts[0] := parts[1]])
  }

  /** The filters of `search` and `update`: none is an error, then the loop from no filters. */
  function Filters(args: seq<string>): Result<map<string, string>, FilterError> {
    if |args| == 0 then Err(MissingFilters) else CollectFilters(args, map[])
  }

  /**
   * The filter parsing loop: each argument is split on "=", must give
   * exactly two parts with the key an attribute, and sets that key.
   */
  method ParseFilters(args: seq<string>) returns (r: Result<map<string, string>, FilterError>)
    ensures r == Filters(args)
  {
    if |args| == 0 {
      return Err(MissingFilters);
    }
    var filters: map<string, string> := map[];
    var i := 0;
    while i < |args|
      invariant 0 <= i <= |args|
      invariant CollectFilters(args[i..], filters) == CollectFilters(args, map[])
    {
      var argFilter := Split(args[i], '=');
      assert args[i..][1..] == args[i + 1..];
      if |argFilter| != 2 {
        return Err(MalformedFilter);
      }
      if argFilter[0] !in Attributes {
        return Err(UnknownKey(argFilter[0]));
      }
      filters := filters[argFilter[0] := argFilter[1]];
      i := i + 1;
    }
    assert args[i..] == [];
    r := Ok(filters);
  }

  /** The value the last argument with key `k` gives, when every argument is a good filter. */
  function LastValue(args: seq<string>, k: string): Option<string>
    requires forall i :: 0 <= i < |args| ==> GoodFilter(args[i])
    decreases |args|
  {
    if |args| == 0 then None
    else
      var later := LastValue(args[1..], k);
      if later.Some? then later
      else if Key(args[0]) == k then
        assert GoodFilter(args[0]);
        Some(Value(args[0]))
      else None
  }

  /** `LastValue` is the value of an argument with that key after which no argument has it. */
  lemma {:induction false} LastValueIsLast(args: seq<string>, k: string)
    requires forall i :: 0 <= i < |args| ==> GoodFilter(args[i])
    ensures LastValue(args, k).Some? ==>
      exists i :: 0 <= i < |args| && Key(args[i]) == k && Value(args[i]) == LastValue(args, k).value
                  && forall j :: i < j < |args| ==> Key(args[j]) != k
    ensures LastValue(args, k).None? ==> forall i :: 0 <= i < |args| ==> Key(args[i]) != k
    decreases |args|
  {
    if |args| > 0 {
      LastValueIsLast(args[1..], k);
      var later := LastValue(args[1..], k);
      if later.Some? {
        var i :| 0 <= i < |args[1..]| && Key(args[1..][i]) == k && Value(args[1..][i]) == later.value
                 && forall j :: i < j < |args[1..]| ==> Key(args[1..][j]) != k;
        assert forall j :: i + 1 < j < |args| ==> args[j] == args[1..][j - 1];
      } else {
        assert forall i :: 1 <= i < |args| ==> args[i] == args[1..][i - 1];
      }
    }
  }

  /** The loop succeeds exactly when every argument is a good filter. */
  lemma {:induction false} CollectFiltersOk(args: seq<string>, acc: map<string, string>)
    ensures CollectFilters(args, acc).Ok? <==> forall i :: 0 <= i < |args| ==> GoodFilter(args[i])
    decreases |args|
  {
    if |args| > 0 {
      var parts := Split(args[0], '=');
      if |parts| == 2 && parts[0] in Attributes {
        CollectFiltersOk(args[1..], acc[parts[0] := parts[1]]);
        assert forall i :: 1 <= i < |args| ==> args[i] == args[1..][i - 1];
      }
    }
  }

  /** Why a bad argument is refused. */
  function FilterErrorOf(arg: string): FilterError {
    if |Split(arg, '=')| != 2 then MalformedFilter else UnknownKey(Key(arg))
  }

  /** Argument `i` is the first bad one. */
  predicate FirstBad(args: seq<string>, i: int) {
    0 <= i < |args| && !GoodFilter(args[i]) && forall j :: 0 <= j < i ==> GoodFilter(args[j])
  }

  /** A refusal is for the first bad argument: malformed, or with a key that is no attribute. */
  lemma {:induction false} CollectFiltersFirstBad(args: seq<string>, acc: map<string, string>)
    requires CollectFilters(args, acc).Err?
    ensures exists i :: FirstBad(args, i) && CollectFilters(args, acc).error == FilterErrorOf(args[i])
    decreases |args|
  {
    var parts := Split(args[0], '=');
    if |parts| == 2 && parts[0] in Attributes {
      var rest := args[1..];
      CollectFiltersFirstBad(rest, acc[parts[0] := parts[1]]);
      var i :| FirstBad(rest, i) && CollectFilters(rest, acc[parts[0] := parts[1]]).error == FilterErrorOf(rest[i]);
      assert args[i + 1] == rest[i];
      assert forall j :: 1 <= j < i + 1 ==> args[j] == rest[j - 1];
      assert FirstBad(args, i + 1);
    } else {
      assert FirstBad(args, 0);
    }
  }

  /** The loop from `acc`: each key ends with the value of the last argument that has it, else its value in `acc`. */
  lemma {:induction false} CollectFiltersLastWins(args: seq<string>, acc: map<string, string>, k: string)
    requires forall i :: 0 <= i < |args| ==> GoodFilter(args[i])
    ensures CollectFilters(args, acc).Ok?
    ensures var m := CollectFilters(args, acc).value;
      (k in m <==> LastValue(args, k).Some? || k in acc)
      && (k in m ==> m[k] == if LastValue(args, k).Some? then LastValue(args, k).value else acc[k])
    decreases |args|
  {
    CollectFiltersOk(args, acc);
    if |args| > 0 {
      var parts := Split(args[0], '=');
      assert forall i :: 1 <= i < |args| ==> args[i] == args[1..][i - 1];
      CollectFiltersLastWins(args[1..], acc[parts[0] := parts[1]], k);
    }
  }

  /** Parsed filters: the keys of the arguments, each with the value of its last argument. */
  lemma FiltersLastWins(args: seq<string>, k: string)
    requires Filters(args).Ok?
    ensures |args| > 0 && forall i :: 0 <= i < |args| ==> GoodFilter(args[i])
    ensures k in Filters(args).value <==> exists i :: 0 <= i < |args| && Key(args[i]) == k
    ensures k in Filters(args).value ==>
      exists i :: 0 <= i < |args| && Key(args[i]) == k && GoodFilter(args[i])
                  && Value(args[i]) == Filters(args).value[k]
                  && forall j :: i < j < |args| ==> Key(args[j]) != k
  {
    CollectFiltersOk(args, map[]);
    CollectFiltersLastWins(args, map[], k);
    LastValueIsLast(args, k);
  }

  // ---------------------------------------------------------------------
  // The text of a search result.
  // ---------------------------------------------------------------------

  /** A stored row: user id, name, code and rank, which may be missing. */
  datatype Row = Row(userId: string, name: string, code: string, rank: Option<string>)

  /** `str` of a column: a missing rank shows as "None". */
  function RankText(rank: Option<string>): string {
    match rank
    case Some(r) => r
    case None => "None"
  }

  /** `f"{item[0]}\t{item[1]}\t{item[2]}\t{item[3]}"`. */
  function RowText(row: Row): string {
    row.userId + "\t" + row.name + "\t" + row.code + "\t" + RankText(row.rank)
  }

  function RowTexts(rows: seq<Row>): (lines: seq<string>)
    ensures |lines| == |rows|
    ensures forall i :: 0 <= i < |rows| ==> lines[i] == RowText(rows[i])
  {
    seq(|rows|, i requires 0 <= i < |rows| => RowText(rows[i]))
  }

  /** The rows, one a line, between two fences of three backquotes. */
  function SearchText(rows: seq<Row>): string {
    "```\n" + Join(RowTexts(rows), "\n") + "\n```"
  }

  /** The columns of a row, none holding the character `c`. */
  predicate RowFree(row: Row, c: char) {
    c !in row.userId && c !in row.name && c !in row.code && c !in RankText(row.rank)
  }

  /** A row line splits on tabs back into its four columns. */
  lemma RowTextFields(row: Row)
    requires RowFree(row, '\t')
    ensures Split(RowText(row), '\t') == [row.userId, row.name, row.code, RankText(row.rank)]
  {
    var rank := RankText(row.rank);
    SplitFree(rank, '\t');
    SplitAfterPiece(row.code, '\t', rank);
    assert row.name + "\t" + row.code + "\t" + rank == row.name + ['\t'] + (row.code + ['\t'] + rank);
    SplitAfterPiece(row.name, '\t', row.code + ['\t'] + rank);
    assert RowText(row) == row.userId + ['\t'] + (row.name + ['\t'] + (row.code + ['\t'] + rank));
    SplitAfterPiece(row.userId, '\t', row.name + ['\t'] + (row.code + ['\t'] + rank));
  }

  /** A line free of line breaks when the columns are. */
  lemma RowTextOneLine(row: Row)
    requires RowFree(row, '\n')
    ensures '\n' !in RowText(row)
  {
  }

  /**
   * The search reply splits into its lines: the opening fence, one line per
   * row in order, and the closing fence.
   */
  lemma SearchTextLines(rows: seq<Row>)
    requires |rows| > 0
    requires forall i :: 0 <= i < |rows| ==> RowFree(rows[i], '\n')
    ensures Split(SearchText(rows), '\n') == ["```"] + RowTexts(rows) + ["```"]
  {
    var lines := RowTexts(rows);
    forall i | 0 <= i < |lines| ensures '\n' !in lines[i] {
      RowTextOneLine(rows[i]);
    }
    var all := lines + ["```"];
    forall i | 0 <= i < |all| ensures '\n' !in all[i] {
      if i < |lines| {
        assert all[i] == lines[i];
      }
    }
    JoinSnoc(lines, "\n", "```");
    SplitJoin(all, '\n');
    assert SearchText(rows) == "```" + ['\n'] + Join(all, "\n");
    SplitAfterPiece("```", '\n', Join(all, "\n"));
  }

  /** Joining one more piece. */
  lemma {:induction false} JoinSnoc(parts: seq<string>, sep: string, last: string)
    requires |parts| > 0
    ensures Join(parts + [last], sep) == Join(parts, sep) + sep + last
    decreases |parts|
  {
    if |parts| > 1 {
      assert (parts + [last])[1..] == parts[1..] + [last];
      JoinSnoc(parts[1..], sep, last);
    } else {
      assert parts + [last] == [parts[0], last];
      assert [parts[0], last][1..] == [last];
    }
  }

  // ---------------------------------------------------------------------
  // The replies, for a stubbed store.
  // ---------------------------------------------------------------------

  /** What a store call does: it returns, or it raises an exception with a message. */
  datatype Answer<+T> = Done(value: T) | Raised(message: string)

  /**
   * The rival store of one author, as the answers it gives: whether it could
   * be opened, and what each call returns or raises.
   */
  datatype Store = Store(
    opens: bool,
    create: Entry -> Answer<()>,
    search: map<string, string> -> Answer<seq<Row>>,
    update: map<string, string> -> Answer<()>,
    delete: Answer<()>)

  function HelpHint(g: Game): string {
    "`!help " + CommandName(g) + "`"
  }

  function UseHelp(g: Game): string {
    "! Use " + HelpHint(g) + " for more information"
  }

  function GameTitle(g: Game): string {
    match g
    case Ddr => "DDR"
    case Iidx => "IIDX"
  }

  function CreateErrorText(g: Game, e: CreateError): string {
    match e
    case MissingArguments => "Missing required arguments" + UseHelp(g)
    case BadName =>
      (match g
       case Ddr => "Dancer name must be at most 8 characters!"
       case Iidx => "DJ name must be at most 6 characters!")
    case BadCode => GameTitle(g) + " ID must follow the following format: `####-####`"
    case BadRank => "Rank is not valid! Options are #dan, #kyu, chuu, or kai"
  }

  function FilterErrorText(g: Game, e: FilterError): string {
    match e
    case MissingFilters => "Missing filters" + UseHelp(g)
    case MalformedFilter => "Invalid filters" + UseHelp(g)
    case UnknownKey(key) => "Invalid filter " + key + UseHelp(g)
  }

  /** The confirmation of `create`; the IIDX one is spelled "IIDx". */
  function CreatedText(g: Game, name: string): string {
    match g
    case Ddr => "Created DDR Rival " + name + "!"
    case Iidx => "Created IIDx Rival " + name + "!"
  }

  function NotCreatedText(g: Game): string {
    "Your entry must be created first. See " + HelpHint(g) + " for more information"
  }

  /**
   * What a command does in the end: the text it sends, and whether it then
   * raises the store's exception again.
   */
  datatype Reply = Reply(text: string, raises: bool)

  /** The end of every reply that reports a failure of the store. */
  const HelpCry := "Send help!"

  predicate AsksForHelp(t: string) {
    |t| >= |HelpCry| && t[|t| - |HelpCry|..] == HelpCry
  }

  /** The reply to a failure of the store that the command does not recognise: it is reported, then raised again. */
  function Failure(what: string): Reply {
    Reply(what + "! " + HelpCry, true)
  }

  /** The reply to `!ddrrival` or `!iidxrival` with `action` and `args`, for the store's answers. */
  function RivalReply(g: Game, action: Option<string>, args: seq<string>, store: Store): Reply {
    match ParseAction(action)
    case None => Reply("Bad action" + UseHelp(g), false)
    case Some(a) =>
      // the exception is not raised again here: the `raise` follows a `return`
      if !store.opens then Reply(GameTitle(g) + " Rival codes are currently unavailable. " + HelpCry, false)
      else
        match a
        case Create => CreateReply(g, args, store.create)
        case Search => SearchReply(g, args, store.search)
        case Update => UpdateReply(g, args, store.update)
        case Delete => DeleteReply(g, store.delete)
  }

  function CreateReply(g: Game, args: seq<string>, create: Entry -> Answer<()>): Reply {
    match ValidateCreate(g, args)
    case Err(e) => Reply(CreateErrorText(g, e), false)
    case Ok(entry) =>
      match create(entry)
      case Done(_) => Reply(CreatedText(g, entry.name), false)
      case Raised(m) =>
        if Contains(m, "An entry already exists") then Reply(m, false)
        else Failure("Cannot create entry for " + entry.name)
  }

  function SearchReply(g: Game, args: seq<string>, search: map<string, string> -> Answer<seq<Row>>): Reply {
    match Filters(args)
    case Err(e) => Reply(FilterErrorText(g, e), false)
    case Ok(filters) =>
      match search(filters)
      case Raised(_) => Failure("Cannot search for rivals")
      case Done(rows) =>
        Reply(if |rows| == 0 then "No rivals found with that filter!" else SearchText(rows), false)
  }

  function UpdateReply(g: Game, args: seq<string>, update: map<string, string> -> Answer<()>): Reply {
    match Filters(args)
    case Err(e) => Reply(FilterErrorText(g, e), false)
    case Ok(filters) =>
      match update(filters)
      case Done(_) => Reply("Entry has been updated!", false)
      case Raised(m) =>
        if Contains(m, "Entry must be created first") then Reply(NotCreatedText(g), false)
        else Failure("Cannot update entry")
  }

  function DeleteReply(g: Game, delete: Answer<()>): Reply {
    match delete
    case Done(_) => Reply("Entry has been deleted!", false)
    case Raised(m) =>
      if Contains(m, "Entry must be created first") then Reply(NotCreatedText(g), false)
      else Failure("Cannot delete entry")
  }

  /** Any action outside the four is refused before the store is touched. */
  lemma BadActionRefused(g: Game, action: Option<string>, args: seq<string>, store: Store)
    requires action.None? || action.value !in ["create", "search", "update", "delete"]
    ensures RivalReply(g, action, args, store) == Reply("Bad action! Use " + HelpHint(g) + " for more information", false)
  {
    assert "Bad action! Use " == "Bad action" + "! Use ";
  }

  /** The store is asked to create only a validated entry, and its acceptance is confirmed with the stored name. */
  lemma CreateOnlyValid(g: Game, args: seq<string>, store: Store)
    requires store.opens
    ensures ValidateCreate(g, args).Err? ==>
      RivalReply(g, Some("create"), args, store) == Reply(CreateErrorText(g, ValidateCreate(g, args).error), false)
    ensures ValidateCreate(g, args).Ok? && store.create(ValidateCreate(g, args).value).Done? ==>
      RivalReply(g, Some("create"), args, store) == Reply(CreatedText(g, Upper(args[0])), false)
  {
  }

  /**
   * An exception is raised again only after the store was opened and one of
   * its calls failed, and only after a reply that ends in "Send help!".
   */
  lemma RaisesOnlyAfterHelp(g: Game, action: Option<string>, args: seq<string>, store: Store)
    ensures var r := RivalReply(g, action, args, store);
      r.raises ==> store.opens && ParseAction(action).Some? && AsksForHelp(r.text)
  {
    if ParseAction(action).Some? && store.opens {
      match ValidateCreate(g, args)
      case Err(_) =>
      case Ok(entry) => FailureAsksForHelp("Cannot create entry for " + entry.name);
      FailureAsksForHelp("Cannot search for rivals");
      FailureAsksForHelp("Cannot update entry");
      FailureAsksForHelp("Cannot delete entry");
    }
  }

  lemma FailureAsksForHelp(what: string)
    ensures AsksForHelp(Failure(what).text)
  {
    var t := Failure(what).text;
    assert t == (what + "! ") + HelpCry;
    assert t[|t| - |HelpCry|..] == HelpCry;
  }

  /** A failed search is always reported and raised again. */
  lemma SearchFailureRaises(g: Game, args: seq<string>, store: Store)
    requires store.opens && Filters(args).Ok? && store.search(Filters(args).value).Raised?
    ensures RivalReply(g, Some("search"), args, store) == Reply("Cannot search for rivals! Send help!", true)
  {
  }

  /**
   * A failed delete is answered with the help hint when the store says the
   * entry does not exist; any other failure is reported and raised again.
   */
  lemma DeleteFailure(g: Game, args: seq<string>, store: Store)
    requires store.opens && store.delete.Raised?
    ensures Contains(store.delete.message, "Entry must be created first") ==>
      RivalReply(g, Some("delete"), args, store) == Reply(NotCreatedText(g), false)
    ensures !Contains(store.delete.message, "Entry must be created first") ==>
      RivalReply(g, Some("delete"), args, store) == Reply("Cannot delete entry! Send help!", true)
  {
  }

  /**
   * A failed create is answered with the store's own message when it says the
   * entry exists; any other failure is reported with the name and raised again.
   */
  lemma CreateFailure(g: Game, args: seq<string>, store: Store)
    requires store.opens && ValidateCreate(g, args).Ok?
    requires store.create(ValidateCreate(g, args).value).Raised?
    ensures var m := store.create(ValidateCreate(g, args).value).message;
      Contains(m, "An entry already exists") ==>
        RivalReply(g, Some("create"), args, store) == Reply(m, false)
    ensures var m := store.create(ValidateCreate(g, args).value).message;
      !Contains(m, "An entry already exists") ==>
        RivalReply(g, Some("create"), args, store) ==
          Reply("Cannot create entry for " + Upper(args[0]) + "! Send help!", true)
  {
  }

  /** When the store cannot be opened, every known action gets the "unavailable" reply, which raises nothing. */
  lemma StoreUnavailable(g: Game, action: Option<string>, args: seq<string>, store: Store)
    requires ParseAction(action).Some? && !store.opens
    ensures RivalReply(g, action, args, store) ==
      Reply(GameTitle(g) + " Rival codes are currently unavailable. Send help!", false)
  {
  }

  /** Refused filters of `search` and `update` are reported before the store is called, and raise nothing. */
  lemma FiltersRefused(g: Game, args: seq<string>, store: Store)
    requires store.opens && Filters(args).Err?
    ensures RivalReply(g, Some("search"), args, store) == Reply(FilterErrorText(g, Filters(args).error), false)
    ensures RivalReply(g, Some("update"), args, store) == Reply(FilterErrorText(g, Filters(args).error), false)
  {
  }

  /** A search that answers lists its rows, or says that none was found. */
  lemma SearchDone(g: Game, args: seq<string>, store: Store)
    requires store.opens && Filters(args).Ok? && store.search(Filters(args).value).Done?
    ensures var rows := store.search(Filters(args).value).value;
      RivalReply(g, Some("search"), args, store) ==
        Reply(if |rows| == 0 then "No rivals found with that filter!" else SearchText(rows), false)
  {
  }

  /** An update the store accepts is confirmed and raises nothing. */
  lemma UpdateDone(g: Game, args: seq<string>, store: Store)
    requires store.opens && Filters(args).Ok? && store.update(Filters(args).value).Done?
    ensures RivalReply(g, Some("update"), args, store) == Reply("Entry has been updated!", false)
  {
  }

  /**
   * A failed update is answered with the help hint when the store says the
   * entry does not exist; any other failure is reported and raised again.
   */
  lemma UpdateFailure(g: Game, args: seq<string>, store: Store)
    requires store.opens && Filters(args).Ok? && store.update(Filters(args).value).Raised?
    ensures var m := store.update(Filters(args).value).message;
      Contains(m, "Entry must be created first") ==>
        RivalReply(g, Some("update"), args, store) == Reply(NotCreatedText(g), false)
    ensures var m := store.update(Filters(args).value).message;
      !Contains(m, "Entry must be created first") ==>
        RivalReply(g, Some("update"), args, store) == Reply("Cannot update entry! Send help!", true)
  {
  }

  /** A delete the store accepts is confirmed and raises nothing. */
  lemma DeleteDone(g: Game, args: seq<string>, store: Store)
    requires store.opens && store.delete.Done?
    ensures RivalReply(g, Some("delete"), args, store) == Reply("Entry has been deleted!", false)
  {
  }
}
