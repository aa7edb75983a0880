/**
 * The transformation task: six SQL scripts, read from the `sql/` directory,
 * have their bracketed placeholders replaced by table names and are executed
 * in order on one connection; the work is committed once, after the last.
 * What the SQL does inside the database is not modelled: the warehouse only
 * records which statements ran and whether the session committed.
 */
module FlowTransformation {
  import opened Text
  import opened Store
  import opened Sessions

  const EnumsScript: string := "sql/pr_create_enums.sql"
  const FunctionsScript: string := "sql/f_extract_domain.sql"
  const AggScript: string := "sql/create_agg_table.sql"
  const DomainScript: string := "sql/create_domain_table.sql"
  const OutputScript: string := "sql/create_output_table.sql"
  const CleanUpScript: string := "sql/clean_up.sql"

  /** One statement of the task: the script it is read from and the replacements applied, in order. */
  datatype Step = Step(script: string, pairs: seq<(string, string)>)

  /**
   * The six steps. The domain step reads from the aggregated table, because
   * the aggregated table is already grouped by domain.
   */
  function Steps(srcTable: string, aggTable: string, destTable: string): seq<Step> {
    var srcDomainTable := aggTable;
    [ Step(EnumsScript, []),
      Step(FunctionsScript, []),
      Step(AggScript, [(Token("src_table"), srcTable), (Token("agg_table"), aggTable)]),
      Step(DomainScript, [(Token("src_domain_table"), srcDomainTable)]),
      Step(OutputScript, [(Token("agg_table"), aggTable), (Token("dest_table"), destTable)]),
      Step(CleanUpScript, [(Token("agg_table"), aggTable), (Token("src_table"), srcTable)]) ]
  }

  /** The statement text of each step; `read` gives a script file's contents. */
  function Statements(read: string -> string, steps: seq<Step>): seq<string> {
    seq(|steps|, i requires 0 <= i < |steps| => Substitute(read(steps[i].script), steps[i].pairs))
  }

  /** The six statements the task executes, in order. */
  function Plan(read: string -> string, srcTable: string, aggTable: string, destTable: string): seq<string> {
    Statements(read, Steps(srcTable, aggTable, destTable))
  }

  /**
   * The plan, statement by statement: the enum and function scripts run
   * verbatim; the aggregation replaces the source table and then the
   * aggregated table; the domain step puts the aggregated table where its
   * source goes; the output step replaces the aggregated and destination
   * tables; the clean-up replaces the aggregated and then the source table.
   */
  lemma PlanStatements(read: string -> string, srcTable: string, aggTable: string, destTable: string)
    ensures Plan(read, srcTable, aggTable, destTable) ==
      [ read(EnumsScript),
        read(FunctionsScript),
        ReplaceAll(ReplaceAll(read(AggScript), Token("src_table"), srcTable), Token("agg_table"), aggTable),
        ReplaceAll(read(DomainScript), Token("src_domain_table"), aggTable),
        ReplaceAll(ReplaceAll(read(OutputScript), Token("agg_table"), aggTable), Token("dest_table"), destTable),
        ReplaceAll(ReplaceAll(read(CleanUpScript), Token("agg_table"), aggTable), Token("src_table"), srcTable) ]
  {
    var steps := Steps(srcTable, aggTable, destTable);
    SubstituteNone(read(EnumsScript));
    SubstituteNone(read(FunctionsScript));
    SubstituteTwo(read(AggScript), steps[2].pairs[0], steps[2].pairs[1]);
    SubstituteOne(read(DomainScript), steps[3].pairs[0]);
    SubstituteTwo(read(OutputScript), steps[4].pairs[0], steps[4].pairs[1]);
    SubstituteTwo(read(CleanUpScript), steps[5].pairs[0], steps[5].pairs[1]);
  }

  lemma SubstituteNone(s: string)
    ensures Substitute(s, []) == s
  {
  }

  lemma SubstituteOne(s: string, a: (string, string))
    ensures Substitute(s, [a]) == ReplaceAll(s, a.0, a.1)
  {
    assert [a][1..] == [];
  }

  lemma SubstituteTwo(s: string, a: (string, string), b: (string, string))
    ensures Substitute(s, [a, b]) == ReplaceAll(ReplaceAll(s, a.0, a.1), b.0, b.1)
  {
    assert [a, b][1..] == [b];
    SubstituteOne(ReplaceAll(s, a.0, a.1), b);
  }

  /** The four placeholders are bracketed tokens. */
  lemma TokensBracketed()
    ensures Bracketed(Token("src_table")) && Bracketed(Token("agg_table"))
    ensures Bracketed(Token("dest_table")) && Bracketed(Token("src_domain_table"))
  {
    PlainBracketed("src_table");
    PlainBracketed("agg_table");
    PlainBracketed("dest_table");
    PlainBracketed("src_domain_table");
  }

  /** A name none of whose characters is a bracket makes a bracketed token. */
  lemma PlainBracketed(n: string)
    requires forall i :: 0 <= i < |n| ==> n[i] != '[' && n[i] != ']'
    ensures Bracketed(Token(n))
  {
    BracketedName(n);
  }

  /** A text whose every `[` opens one of no tokens holds no `[` at all. */
  lemma {:induction false} NoHoles(s: string)
    requires HolesAmong(s, {})
    ensures '[' !in s
    decreases |s|
  {
    if s != [] {
      NoHoles(s[1..]);
      assert s == [s[0]] + s[1..];
    }
  }

  /**
   * One statement: when the script's `[` characters open only the step's own
   * placeholders, and the replacement texts hold no `[`, the statement keeps
   * no placeholder and no `[` at all.
   */
  lemma StepFilled(s: string, pairs: seq<(string, string)>)
    requires forall j :: 0 <= j < |pairs| ==> Bracketed(pairs[j].0) && '[' !in pairs[j].1
    requires HolesAmong(s, Placeholders(pairs))
    ensures '[' !in Substitute(s, pairs)
    ensures forall j :: 0 <= j < |pairs| ==> !Occurs(Substitute(s, pairs), pairs[j].0)
  {
    var toks := Placeholders(pairs);
    SubstituteClears(s, toks, pairs);
    assert toks - toks == {};
    NoHoles(Substitute(s, pairs));
  }

  /** What a step needs for its statement to come out filled: bracketed placeholders, `[`-free replacements, known holes. */
  ghost predicate StepFits(read: string -> string, step: Step) {
    && (forall j :: 0 <= j < |step.pairs| ==> Bracketed(step.pairs[j].0) && '[' !in step.pairs[j].1)
    && HolesAmong(read(step.script), Placeholders(step.pairs))
  }

  /** Every statement of fitting steps comes out filled. */
  lemma StatementsFilled(read: string -> string, steps: seq<Step>)
    requires forall i :: 0 <= i < |steps| ==> StepFits(read, steps[i])
    ensures var p := Statements(read, steps);
      forall i :: 0 <= i < |p| ==> '[' !in p[i] && forall j :: 0 <= j < |steps[i].pairs| ==> !Occurs(p[i], steps[i].pairs[j].0)
  {
    forall i | 0 <= i < |steps|
      ensures var p := Statements(read, steps);
        '[' !in p[i] && forall j :: 0 <= j < |steps[i].pairs| ==> !Occurs(p[i], steps[i].pairs[j].0)
    {
      StepFilled(read(steps[i].script), steps[i].pairs);
    }
  }

  /**
   * Scripts may hold bracketed tokens other than their step's placeholders
   * (an enum value, an array index): when the `[` characters of the i-th
   * script open only tokens of `toks[i]`, and no table name holds a `[`, the
   * i-th statement keeps none of its step's placeholders, and every `[` left
   * opens one of the other tokens of `toks[i]`.
   */
  lemma PlanClearsTokens(read: string -> string, srcTable: string, aggTable: string, destTable: string,
                         toks: seq<set<string>>)
    requires '[' !in srcTable && '[' !in aggTable && '[' !in destTable
    requires |toks| == |Steps(srcTable, aggTable, destTable)|
    requires var steps := Steps(srcTable, aggTable, destTable);
      forall i :: 0 <= i < |steps| ==> HolesAmong(read(steps[i].script), toks[i])
    ensures var steps, p := Steps(srcTable, aggTable, destTable), Plan(read, srcTable, aggTable, destTable);
      forall i :: 0 <= i < |p| ==>
        && HolesAmong(p[i], toks[i] - Placeholders(steps[i].pairs))
        && forall j :: 0 <= j < |steps[i].pairs| ==> !Occurs(p[i], steps[i].pairs[j].0)
  {
    var steps := Steps(srcTable, aggTable, destTable);
    TokensBracketed();
    forall i | 0 <= i < |steps|
      ensures var p := Plan(read, srcTable, aggTable, destTable);
        && HolesAmong(p[i], toks[i] - Placeholders(steps[i].pairs))
        && forall j :: 0 <= j < |steps[i].pairs| ==> !Occurs(p[i], steps[i].pairs[j].0)
    {
      SubstituteClears(read(steps[i].script), toks[i], steps[i].pairs);
    }
  }

  /**
   * The case with no other tokens: when each script's `[` characters open
   * only that step's own placeholders and no table name holds a `[`, no
   * statement of the plan keeps a placeholder, or any `[` at all.
   */
  lemma PlanFilled(read: string -> string, srcTable: string, aggTable: string, destTable: string)
    requires '[' !in srcTable && '[' !in aggTable && '[' !in destTable
    requires var steps := Steps(srcTable, aggTable, destTable);
      forall i :: 0 <= i < |steps| ==> HolesAmong(read(steps[i].script), Placeholders(steps[i].pairs))
    ensures var steps, p := Steps(srcTable, aggTable, destTable), Plan(read, srcTable, aggTable, destTable);
      forall i :: 0 <= i < |p| ==> '[' !in p[i] && forall j :: 0 <= j < |steps[i].pairs| ==> !Occurs(p[i], steps[i].pairs[j].0)
  {
    var steps := Steps(srcTable, aggTable, destTable);
    TokensBracketed();
    forall i | 0 <= i < |steps|
      ensures StepFits(read, steps[i])
    {
    }
    StatementsFilled(read, steps);
  }

  /** A plan of six statements is the first followed by the plan of the other five, and so on. */
  lemma Nested(a: string, b: string, c: string, d: string, e: string, f: string)
    ensures [a, b, c, d, e, f] == [a] + ([b] + ([c] + ([d] + ([e] + ([f] + [])))))
  {
  }

  /**
   * `transformation(src_table, agg_table, dest_table, con)`: execute the six
   * statements in order, stopping at the first one the database refuses, and
   * commit after the last. `ok` says whether the commit happened.
   */
  method Transformation(wh: Warehouse, read: string -> string, rejects: string -> bool,
                        srcTable: string, aggTable: string, destTable: string) returns (ok: bool)
    modifies wh
    ensures wh.tables == old(wh.tables)
    ensures wh.journal == old(wh.journal) + Session(Plan(read, srcTable, aggTable, destTable), rejects)
    ensures ok <==> Committed in Session(Plan(read, srcTable, aggTable, destTable), rejects)
  {
    var srcDomainTable := aggTable;
    var enums := read(EnumsScript);
    var functions := read(FunctionsScript);
    var agg := ReplaceAll(ReplaceAll(read(AggScript), Token("src_table"), srcTable), Token("agg_table"), aggTable);
    var domain := ReplaceAll(read(DomainScript), Token("src_domain_table"), srcDomainTable);
    var output := ReplaceAll(ReplaceAll(read(OutputScript), Token("agg_table"), aggTable), Token("dest_table"), destTable);
    var cleanUp := ReplaceAll(ReplaceAll(read(CleanUpScript), Token("agg_table"), aggTable), Token("src_table"), srcTable);
    ghost var rest5 := [cleanUp] + [];
    ghost var rest4 := [output] + rest5;
    ghost var rest3 := [domain] + rest4;
    ghost var rest2 := [agg] + rest3;
    ghost var rest1 := [functions] + rest2;
    ghost var plan := [enums] + rest1;
    PlanStatements(read, srcTable, aggTable, destTable);
    Nested(enums, functions, agg, domain, output, cleanUp);
    ghost var goal := wh.journal + Session(plan, rejects);

    ok := ExecuteNext(wh, enums, rest1, rejects, goal);
    if !ok { return; }

    ok := ExecuteNext(wh, functions, rest2, rejects, goal);
    if !ok { return; }

    ok := ExecuteNext(wh, agg, rest3, rejects, goal);
    if !ok { return; }

    ok := ExecuteNext(wh, domain, rest4, rejects, goal);
    if !ok { return; }

    ok := ExecuteNext(wh, output, rest5, rejects, goal);
    if !ok { return; }

    ok := ExecuteNext(wh, cleanUp, [], rejects, goal);
    if !ok { return; }

    wh.Commit();
  }
}
