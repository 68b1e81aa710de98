// The parameter registry (PYPM_ParamManager): parameters grouped by
// category, each reachable through a list of keywords, with a check method
// run before a value is stored and an optional change method run after.
//
// Python 2 dictionaries iterate in hash order, which the language leaves
// unspecified: the operations that visit a dictionary take the visiting
// order as a parameter, any order that lists each key once.

module ParamManager {
  import opened Errors
  import opened Text

  /** The Python values a parameter can hold. */
  datatype Value =
    | VNone
    | VBool(b: bool)
    | VInt(i: int)
    | VReal(r: real)
    | VStr(s: string)
    | VList(items: seq<Value>)

  /** The record `params[category][name]`.  The check method returns the
      exception it raises, or None when it accepts the value; the change
      method is known by its name (its effect lies outside the registry). */
  datatype Param = Param(
    description: string,
    value: Value,
    check: Value -> Option<Error>,
    change: Option<string>,
    noneValue: Value,
    noneDescription: Option<string>,
    keywords: seq<string>)

  type Params = map<string, map<string, Param>>

  predicate NoDup<T(==)>(s: seq<T>) {
    forall i, j :: 0 <= i < j < |s| ==> s[i] != s[j]
  }

  /** `a` lists the elements of `b`, each once. */
  predicate Permutes(a: seq<string>, b: seq<string>) {
    NoDup(a) && (forall x :: x in a ==> x in b) && (forall x :: x in b ==> x in a)
  }

  lemma NoDupSnoc<T>(s: seq<T>, x: T)
    requires NoDup(s) && x !in s
    ensures NoDup(s + [x])
  {
  }

  /** A prefix one longer is the prefix and the next element. */
  lemma TakeSnoc<T>(s: seq<T>, i: nat)
    requires i < |s|
    ensures s[..i + 1] == s[..i] + [s[i]]
  {
  }

  /** Every keyword binding and every category link leads to a stored record. */
  predicate Linked(params: Params, categoryOf: map<string, string>, keywordMap: map<string, (string, string)>) {
    (forall n :: n in categoryOf ==> categoryOf[n] in params && n in params[categoryOf[n]])
    && (forall k :: k in keywordMap ==> keywordMap[k].1 in categoryOf)
  }

  /** `params` and `p2` hold the same categories and the same names. */
  predicate SameShape(params: Params, p2: Params) {
    params.Keys == p2.Keys && forall c :: c in params ==> params[c].Keys == p2[c].Keys
  }

  lemma LinkedSameShape(params: Params, p2: Params, categoryOf: map<string, string>,
                        keywordMap: map<string, (string, string)>)
    requires Linked(params, categoryOf, keywordMap) && SameShape(params, p2)
    ensures Linked(p2, categoryOf, keywordMap)
  {
  }

  // ----- setParameters, as a function of the registry state -----

  /** `str(list)` of parameter names, as the unknown-key message shows them. */
  function ListRepr(ids: seq<string>): string {
    "[" + JoinQuoted(ids) + "]"
  }

  function JoinQuoted(ids: seq<string>): string {
    if ids == [] then ""
    else if |ids| == 1 then "'" + ids[0] + "'"
    else "'" + ids[0] + "', " + JoinQuoted(ids[1..])
  }

  function UnknownKeyMessage(key: string, ids: seq<string>): string {
    "Unkown parameter " + key + ".\n" + "Availables parameters are: " + ListRepr(ids)
  }

  datatype SetOutcome = SetOutcome(params: Params, notified: seq<(string, Value)>, status: Status)

  /** The records after storing `v` as the value of `pname`. */
  function Store(params: Params, categoryOf: map<string, string>, pname: string, v: Value): (p2: Params)
    requires pname in categoryOf && categoryOf[pname] in params && pname in params[categoryOf[pname]]
    ensures SameShape(params, p2) && SameChecks(params, p2)
    ensures p2[categoryOf[pname]][pname].value == v
    ensures p2[categoryOf[pname]][pname].change == params[categoryOf[pname]][pname].change
    ensures forall c, n :: c in params && n in params[c] && (c, n) != (categoryOf[pname], pname) ==>
              p2[c][n].value == params[c][n].value
  {
    var cat := categoryOf[pname];
    params[cat := params[cat][pname := params[cat][pname].(value := v)]]
  }

  /** Keyword arguments processed in order: each key is upper-cased and looked
      up; an unknown key raises; otherwise the check runs (and may raise), the
      value is stored, and the change method, if any, is notified. */
  function ApplySettings(params: Params, categoryOf: map<string, string>,
                         keywordMap: map<string, (string, string)>, ids: seq<string>,
                         kwargs: seq<(string, Value)>): (r: SetOutcome)
    requires Linked(params, categoryOf, keywordMap)
    ensures SameShape(params, r.params)
    decreases |kwargs|
  {
    if kwargs == [] then SetOutcome(params, [], Success)
    else
      var key := kwargs[0].0;
      var v := kwargs[0].1;
      var up := Upper(key);
      if up !in keywordMap then SetOutcome(params, [], Failure(Exception(UnknownKeyMessage(key, ids))))
      else
        var pname := keywordMap[up].1;
        var p := params[categoryOf[pname]][pname];
        match p.check(v)
        case Some(e) => SetOutcome(params, [], Failure(e))
        case None =>
          var p2 := Store(params, categoryOf, pname, v);
          LinkedSameShape(params, p2, categoryOf, keywordMap);
          var rest := ApplySettings(p2, categoryOf, keywordMap, ids, kwargs[1..]);
          SetOutcome(rest.params, (if p.change.Some? then [(pname, v)] else []) + rest.notified, rest.status)
  }

  lemma AppendAssoc<T>(a: seq<T>, b: seq<T>, c: seq<T>)
    ensures a + (b + c) == (a + b) + c
  {
  }

  // One step of `ApplySettings`, one lemma per branch.

  lemma ApplyUnknown(params: Params, categoryOf: map<string, string>,
                     keywordMap: map<string, (string, string)>, ids: seq<string>,
                     kwargs: seq<(string, Value)>)
    requires Linked(params, categoryOf, keywordMap) && |kwargs| > 0
    requires Upper(kwargs[0].0) !in keywordMap
    ensures ApplySettings(params, categoryOf, keywordMap, ids, kwargs)
            == SetOutcome(params, [], Failure(Exception(UnknownKeyMessage(kwargs[0].0, ids))))
  {
  }

  lemma ApplyRejected(params: Params, categoryOf: map<string, string>,
                      keywordMap: map<string, (string, string)>, ids: seq<string>,
                      kwargs: seq<(string, Value)>, e: Error)
    requires Linked(params, categoryOf, keywordMap) && |kwargs| > 0
    requires Upper(kwargs[0].0) in keywordMap
    requires var pname := keywordMap[Upper(kwargs[0].0)].1;
             params[categoryOf[pname]][pname].check(kwargs[0].1) == Some(e)
    ensures ApplySettings(params, categoryOf, keywordMap, ids, kwargs) == SetOutcome(params, [], Failure(e))
  {
  }

  lemma ApplyAccepted(params: Params, categoryOf: map<string, string>,
                      keywordMap: map<string, (string, string)>, ids: seq<string>,
                      kwargs: seq<(string, Value)>)
    requires Linked(params, categoryOf, keywordMap) && |kwargs| > 0
    requires Upper(kwargs[0].0) in keywordMap
    requires var pname := keywordMap[Upper(kwargs[0].0)].1;
             params[categoryOf[pname]][pname].check(kwargs[0].1).None?
    ensures var pname := keywordMap[Upper(kwargs[0].0)].1;
            var p := params[categoryOf[pname]][pname];
            var p2 := Store(params, categoryOf, pname, kwargs[0].1);
            Linked(p2, categoryOf, keywordMap) &&
            var rest := ApplySettings(p2, categoryOf, keywordMap, ids, kwargs[1..]);
            ApplySettings(params, categoryOf, keywordMap, ids, kwargs)
            == SetOutcome(rest.params, (if p.change.Some? then [(pname, kwargs[0].1)] else []) + rest.notified,
                          rest.status)
  {
    var pname := keywordMap[Upper(kwargs[0].0)].1;
    LinkedSameShape(params, Store(params, categoryOf, pname, kwargs[0].1), categoryOf, keywordMap);
  }

  /** The loop of `setParameters`: each keyword argument in turn, stopping at
      the first one that is unknown or that its parameter's check rejects. */
  method RunSettings(params: Params, categoryOf: map<string, string>,
                     keywordMap: map<string, (string, string)>, ids: seq<string>,
                     kwargs: seq<(string, Value)>) returns (r: SetOutcome)
    requires Linked(params, categoryOf, keywordMap)
    ensures r == ApplySettings(params, categoryOf, keywordMap, ids, kwargs)
  {
    var ps := params;
    ghost var goal := ApplySettings(ps, categoryOf, keywordMap, ids, kwargs);
    var notified := [];
    var status := Success;
    var i := 0;
    while i < |kwargs| && status.Success?
      invariant 0 <= i <= |kwargs|
      invariant Linked(ps, categoryOf, keywordMap)
      invariant status.Success? ==>
                  var rest := ApplySettings(ps, categoryOf, keywordMap, ids, kwargs[i..]);
                  rest.params == goal.params && notified + rest.notified == goal.notified
                  && rest.status == goal.status
      invariant status.Failure? ==> ps == goal.params && notified == goal.notified && status == goal.status
      decreases |kwargs| - i, if status.Success? then 1 else 0
    {
      var key := kwargs[i].0;
      var value := kwargs[i].1;
      assert kwargs[i..][0] == (key, value);
      var upKey := Upper(key);
      if upKey !in keywordMap {
        ApplyUnknown(ps, categoryOf, keywordMap, ids, kwargs[i..]);
        assert notified + [] == notified;
        status := Failure(Exception(UnknownKeyMessage(key, ids)));
      } else {
        var paramLabel := keywordMap[upKey].1;
        var param := ps[categoryOf[paramLabel]][paramLabel];
        var raised := param.check(value);
        if raised.Some? {
          ApplyRejected(ps, categoryOf, keywordMap, ids, kwargs[i..], raised.value);
          assert notified + [] == notified;
          status := Failure(raised.value);
        } else {
          ghost var r0 := ApplySettings(ps, categoryOf, keywordMap, ids, kwargs[i..]);
          ApplyAccepted(ps, categoryOf, keywordMap, ids, kwargs[i..]);
          assert kwargs[i..][1..] == kwargs[i + 1..];
          ps := Store(ps, categoryOf, paramLabel, value);
          ghost var r1 := ApplySettings(ps, categoryOf, keywordMap, ids, kwargs[i + 1..]);
          var told := if param.change.Some? then [(paramLabel, value)] else [];
          assert r0 == SetOutcome(r1.params, told + r1.notified, r1.status);
          AppendAssoc(notified, told, r1.notified);
          notified := notified + told;
          i := i + 1;
        }
      }
    }
    if status.Success? {
      assert kwargs[i..] == [];
    }
    r := SetOutcome(ps, notified, status);
  }

  /** The parameter a keyword argument designates. */
  function Target(categoryOf: map<string, string>, keywordMap: map<string, (string, string)>,
                  key: string): Option<string>
  {
    var up := Upper(key);
    if up in keywordMap then Some(keywordMap[up].1) else None
  }

  /** The check of a parameter is fixed by `addParam`; storing values does not change it. */
  predicate Accepted(params: Params, categoryOf: map<string, string>,
                     keywordMap: map<string, (string, string)>, kwarg: (string, Value))
    requires Linked(params, categoryOf, keywordMap)
  {
    var t := Target(categoryOf, keywordMap, kwarg.0);
    t.Some? && params[categoryOf[t.value]][t.value].check(kwarg.1).None?
  }

  ghost predicate SameChecks(params: Params, p2: Params)
    requires SameShape(params, p2)
  {
    forall c, n, v :: c in params && n in params[c] ==> p2[c][n].check(v) == params[c][n].check(v)
  }

  lemma SameChecksTrans(p1: Params, p2: Params, p3: Params)
    requires SameShape(p1, p2) && SameShape(p2, p3)
    requires SameChecks(p1, p2) && SameChecks(p2, p3)
    ensures SameShape(p1, p3) && SameChecks(p1, p3)
  {
  }

  /** Every keyword argument names a parameter whose check accepts its value. */
  predicate AllAccepted(params: Params, categoryOf: map<string, string>,
                        keywordMap: map<string, (string, string)>, kwargs: seq<(string, Value)>)
    requires Linked(params, categoryOf, keywordMap)
  {
    forall k :: 0 <= k < |kwargs| ==> Accepted(params, categoryOf, keywordMap, kwargs[k])
  }

  lemma AllAcceptedCons(params: Params, categoryOf: map<string, string>,
                        keywordMap: map<string, (string, string)>, kwargs: seq<(string, Value)>)
    requires Linked(params, categoryOf, keywordMap) && |kwargs| > 0
    ensures AllAccepted(params, categoryOf, keywordMap, kwargs)
            <==> Accepted(params, categoryOf, keywordMap, kwargs[0])
                 && AllAccepted(params, categoryOf, keywordMap, kwargs[1..])
  {
    assert forall k :: 1 <= k < |kwargs| ==> kwargs[k] == kwargs[1..][k - 1];
  }

  /** Acceptance depends only on the checks, which storing values keeps. */
  lemma AllAcceptedSameChecks(params: Params, p2: Params, categoryOf: map<string, string>,
                              keywordMap: map<string, (string, string)>, kwargs: seq<(string, Value)>)
    requires Linked(params, categoryOf, keywordMap) && SameShape(params, p2) && SameChecks(params, p2)
    ensures Linked(p2, categoryOf, keywordMap)
    ensures AllAccepted(p2, categoryOf, keywordMap, kwargs) == AllAccepted(params, categoryOf, keywordMap, kwargs)
  {
    LinkedSameShape(params, p2, categoryOf, keywordMap);
    forall k | 0 <= k < |kwargs|
      ensures Accepted(p2, categoryOf, keywordMap, kwargs[k]) == Accepted(params, categoryOf, keywordMap, kwargs[k])
    {
    }
  }

  /** setParameters succeeds exactly when every key names a parameter and every
      check accepts its value. */
  lemma {:induction false} ApplySettingsSuccess(params: Params, categoryOf: map<string, string>,
                                                 keywordMap: map<string, (string, string)>, ids: seq<string>,
                                                 kwargs: seq<(string, Value)>)
    requires Linked(params, categoryOf, keywordMap)
    ensures ApplySettings(params, categoryOf, keywordMap, ids, kwargs).status == Success
            <==> AllAccepted(params, categoryOf, keywordMap, kwargs)
    ensures SameChecks(params, ApplySettings(params, categoryOf, keywordMap, ids, kwargs).params)
    decreases |kwargs|
  {
    if kwargs != [] {
      AllAcceptedCons(params, categoryOf, keywordMap, kwargs);
      var up := Upper(kwargs[0].0);
      if up !in keywordMap {
        ApplyUnknown(params, categoryOf, keywordMap, ids, kwargs);
      } else {
        var pname := keywordMap[up].1;
        var p := params[categoryOf[pname]][pname];
        if p.check(kwargs[0].1).Some? {
          ApplyRejected(params, categoryOf, keywordMap, ids, kwargs, p.check(kwargs[0].1).value);
        } else {
          var p2 := Store(params, categoryOf, pname, kwargs[0].1);
          ApplyAccepted(params, categoryOf, keywordMap, ids, kwargs);
          ApplySettingsSuccess(p2, categoryOf, keywordMap, ids, kwargs[1..]);
          SameChecksTrans(params, p2, ApplySettings(p2, categoryOf, keywordMap, ids, kwargs[1..]).params);
          AllAcceptedSameChecks(params, p2, categoryOf, keywordMap, kwargs[1..]);
        }
      }
    }
  }

  /** A key whose check raises leaves its parameter's value as it was. */
  lemma RejectedValueNotStored(params: Params, categoryOf: map<string, string>,
                               keywordMap: map<string, (string, string)>, ids: seq<string>,
                               key: string, v: Value)
    requires Linked(params, categoryOf, keywordMap)
    requires !Accepted(params, categoryOf, keywordMap, (key, v))
    ensures ApplySettings(params, categoryOf, keywordMap, ids, [(key, v)]).params == params
    ensures ApplySettings(params, categoryOf, keywordMap, ids, [(key, v)]).status.Failure?
  {
  }

  /** A single accepted setting is what a later getParam returns, and the
      change method, if any, is notified with it. */
  lemma SetThenGet(params: Params, categoryOf: map<string, string>,
                   keywordMap: map<string, (string, string)>, ids: seq<string>,
                   key: string, v: Value)
    requires Linked(params, categoryOf, keywordMap)
    requires Accepted(params, categoryOf, keywordMap, (key, v))
    ensures var pname := Target(categoryOf, keywordMap, key).value;
            var r := ApplySettings(params, categoryOf, keywordMap, ids, [(key, v)]);
            r.status == Success
            && r.params[categoryOf[pname]][pname].value == v
            && (r.notified == if params[categoryOf[pname]][pname].change.Some? then [(pname, v)] else [])
  {
    var pname := Target(categoryOf, keywordMap, key).value;
    var p2 := Store(params, categoryOf, pname, v);
    LinkedSameShape(params, p2, categoryOf, keywordMap);
    assert ApplySettings(p2, categoryOf, keywordMap, ids, [(key, v)][1..]) == SetOutcome(p2, [], Success);
  }

  // ----- iteration order of the nested dictionary -----

  /** The (category, name) pairs in the order `for catDict in params.values():
      for name in catDict` visits them. */
  function EntriesOf(cats: seq<string>, names: map<string, seq<string>>): (es: seq<(string, string)>)
    requires forall c :: c in cats ==> c in names
    ensures forall e :: e in es ==> e.0 in cats && e.1 in names[e.0]
  {
    if cats == [] then []
    else
      var c := cats[|cats| - 1];
      EntriesOf(cats[..|cats| - 1], names) + Pairs(c, names[c])
  }

  function Pairs(c: string, ns: seq<string>): (ps: seq<(string, string)>)
    ensures |ps| == |ns|
    ensures forall k :: 0 <= k < |ns| ==> ps[k] == (c, ns[k])
  {
    seq(|ns|, k requires 0 <= k < |ns| => (c, ns[k]))
  }

  /** Every name the order lists under a category is visited. */
  lemma {:induction false} EntriesOfComplete(cats: seq<string>, names: map<string, seq<string>>)
    requires forall c :: c in cats ==> c in names
    ensures forall c, n :: c in cats && n in names[c] ==> (c, n) in EntriesOf(cats, names)
  {
    if cats != [] {
      var init := cats[..|cats| - 1];
      var last := cats[|cats| - 1];
      EntriesOfComplete(init, names);
      forall c, n | c in cats && n in names[c] ensures (c, n) in EntriesOf(cats, names) {
        if c == last {
          var i :| 0 <= i < |names[c]| && names[c][i] == n;
          assert Pairs(last, names[last])[i] == (c, n);
        } else {
          assert c in init;
        }
      }
    }
  }

  predicate Stored(params: Params, es: seq<(string, string)>) {
    forall e :: e in es ==> e.0 in params && e.1 in params[e.0]
  }

  /** The name of the last visited record whose keywords contain `up`. */
  function LastMatch(params: Params, es: seq<(string, string)>, up: string): (r: Option<string>)
    requires Stored(params, es)
  {
    if es == [] then None
    else
      var e := es[|es| - 1];
      if up in params[e.0][e.1].keywords then Some(e.1) else LastMatch(params, es[..|es| - 1], up)
  }

  /** LastMatch finds the last matching record, and nothing when none matches. */
  lemma {:induction false} LastMatchSpec(params: Params, es: seq<(string, string)>, up: string)
    requires Stored(params, es)
    ensures LastMatch(params, es, up).None?
            <==> forall k :: 0 <= k < |es| ==> up !in params[es[k].0][es[k].1].keywords
    ensures LastMatch(params, es, up).Some? ==>
              exists k :: 0 <= k < |es| && es[k].1 == LastMatch(params, es, up).value
                          && up in params[es[k].0][es[k].1].keywords
                          && forall j :: k < j < |es| ==> up !in params[es[j].0][es[j].1].keywords
  {
    if es != [] {
      var e := es[|es| - 1];
      if up !in params[e.0][e.1].keywords {
        var init := es[..|es| - 1];
        LastMatchSpec(params, init, up);
        assert forall k :: 0 <= k < |init| ==> init[k] == es[k];
      } else {
        assert es[|es| - 1] == e;
      }
    }
  }

  /** The map `{name: value}` built by visiting the records in order. */
  function Collect(params: Params, es: seq<(string, string)>): (m: map<string, Value>)
    requires Stored(params, es)
    ensures m.Keys == set e | e in es :: e.1
  {
    if es == [] then map[]
    else
      var e := es[|es| - 1];
      Collect(params, es[..|es| - 1])[e.1 := params[e.0][e.1].value]
  }

  /** A name that every visited record carrying it holds under one category is
      mapped to that category's value. */
  lemma {:induction false} CollectUnique(params: Params, es: seq<(string, string)>, k: nat)
    requires Stored(params, es)
    requires k < |es|
    requires forall j :: 0 <= j < |es| && es[j].1 == es[k].1 ==> es[j].0 == es[k].0
    ensures Collect(params, es)[es[k].1] == params[es[k].0][es[k].1].value
  {
    var init := es[..|es| - 1];
    if k < |es| - 1 && es[|es| - 1].1 != es[k].1 {
      forall j | 0 <= j < |init| && init[j].1 == init[k].1 ensures init[j].0 == init[k].0 {
        assert init[j] == es[j];
      }
      CollectUnique(params, init, k);
    }
  }

  // ----- the printout -----

  /** A nested dictionary as `getPrintInformation` builds it: a category maps
      to a further dictionary, a parameter to `[description, value]`, and a
      category replaced by its none-description to that string, or to None
      when the parameter has no none-description. */
  datatype PrintNode =
    | Section(entries: seq<Entry>)
    | Setting(description: string, value: Value)
    | Label(text: string)
    | NoneText

  datatype Entry = Entry(item: string, node: PrintNode)

  function NodeSize(n: PrintNode): nat {
    match n
    case Section(es) => 1 + EntriesSize(es)
    case Setting(_, _) => 1
    case Label(_) => 1
    case NoneText => 1
  }

  function EntriesSize(es: seq<Entry>): nat {
    if es == [] then 0 else NodeSize(es[0].node) + 1 + EntriesSize(es[1..])
  }

  /** No entry at any depth holds None, which `'- ' + value` cannot print. */
  predicate Printable(es: seq<Entry>)
    decreases EntriesSize(es)
  {
    es != [] ==> PrintableEntry(es[0]) && Printable(es[1..])
  }

  predicate PrintableEntry(e: Entry)
    decreases NodeSize(e.node)
  {
    match e.node
    case Section(sub) => Printable(sub)
    case NoneText => false
    case _ => true
  }

  /** `__getPrintInfo(param, tab)`: one line per entry; a dictionary entry is a
      header line followed by its own entries one tab deeper. `show` is `str()`. */
  function PrintInfo(es: seq<Entry>, tab: nat, show: Value -> string): string
    requires Printable(es)
    decreases EntriesSize(es)
  {
    if es == [] then ""
    else PrintEntry(es[0], tab, show) + PrintInfo(es[1..], tab, show)
  }

  function PrintEntry(e: Entry, tab: nat, show: Value -> string): string
    requires PrintableEntry(e)
    decreases NodeSize(e.node)
  {
    match e.node
    case Section(sub) =>
      Line(tab, (if tab != 0 then "- " else "") + e.item + " information:") + PrintInfo(sub, tab + 1, show)
    case Setting(d, v) => Line(tab, "- " + d + " = " + show(v))
    case Label(t) => Line(tab, "- " + t)
    case NoneText => assert false; ""
  }

  /** One output line: `'\t' * tab + text + '\n'`. */
  function Line(tab: nat, text: string): string {
    Tabs(tab) + text + "\n"
  }

  /** The number of lines of the printout: one per entry at every depth. */
  function LineCount(es: seq<Entry>): nat
    decreases EntriesSize(es)
  {
    if es == [] then 0 else EntryLines(es[0]) + LineCount(es[1..])
  }

  function EntryLines(e: Entry): nat
    decreases NodeSize(e.node)
  {
    match e.node
    case Section(sub) => 1 + LineCount(sub)
    case Setting(_, _) => 1
    case Label(_) => 1
    case NoneText => 1
  }

  /** No text placed in the printout contains a line break. */
  predicate OneLineTexts(es: seq<Entry>, show: Value -> string)
    decreases EntriesSize(es)
  {
    es != [] ==> OneLineEntry(es[0], show) && OneLineTexts(es[1..], show)
  }

  predicate OneLineEntry(e: Entry, show: Value -> string)
    decreases NodeSize(e.node)
  {
    NoNewline(e.item)
    && match e.node
       case Section(sub) => OneLineTexts(sub, show)
       case Setting(d, v) => NoNewline(d) && NoNewline(show(v))
       case Label(t) => NoNewline(t)
       case NoneText => true
  }

  /** Each entry contributes exactly one line, so the printout has one line per entry. */
  lemma {:induction false} PrintInfoLines(es: seq<Entry>, tab: nat, show: Value -> string)
    requires Printable(es) && OneLineTexts(es, show)
    ensures Newlines(PrintInfo(es, tab, show)) == LineCount(es)
    decreases EntriesSize(es)
  {
    if es != [] {
      PrintEntryLines(es[0], tab, show);
      PrintInfoLines(es[1..], tab, show);
      NewlinesAppend(PrintEntry(es[0], tab, show), PrintInfo(es[1..], tab, show));
    }
  }

  lemma {:induction false} PrintEntryLines(e: Entry, tab: nat, show: Value -> string)
    requires PrintableEntry(e) && OneLineEntry(e, show)
    ensures Newlines(PrintEntry(e, tab, show)) == EntryLines(e)
    decreases NodeSize(e.node)
  {
    match e.node
    case Section(sub) =>
      PrintInfoLines(sub, tab + 1, show);
      var head := (if tab != 0 then "- " else "") + e.item + " information:";
      HeadingLine(tab, e.item);
      NewlinesAppend(Line(tab, head), PrintInfo(sub, tab + 1, show));
    case Setting(d, v) =>
      SettingLine(tab, d, show(v));
    case Label(x) =>
      NoNewlineAppend("- ", x);
      OneLine(tab, "- " + x);
    case NoneText =>
  }

  lemma SettingLine(tab: nat, d: string, v: string)
    requires NoNewline(d) && NoNewline(v)
    ensures Newlines(Line(tab, "- " + d + " = " + v)) == 1
  {
    NoNewlineAppend("- ", d);
    NoNewlineAppend("- " + d, " = ");
    NoNewlineAppend("- " + d + " = ", v);
    OneLine(tab, "- " + d + " = " + v);
  }

  lemma HeadingLine(tab: nat, item: string)
    requires NoNewline(item)
    ensures Newlines(Line(tab, (if tab != 0 then "- " else "") + item + " information:")) == 1
  {
    var c := if tab != 0 then "- " else "";
    NoNewlineAppend(c, item);
    NoNewlineAppend(c + item, " information:");
    OneLine(tab, c + item + " information:");
  }

  /** A line of text without a line break is exactly one line. */
  lemma OneLine(tab: nat, text: string)
    requires NoNewline(text)
    ensures Newlines(Line(tab, text)) == 1
  {
    TabsNoNewline(tab);
    NoNewlineAppend(Tabs(tab), text);
    NoNewlineNone(Tabs(tab) + text);
    NewlinesAppend(Tabs(tab) + text, "\n");
    assert Newlines("\n") == 1 by {
      assert multiset("\n") == multiset{'\n'};
    }
  }

  // ----- getPrintInformation: the nested dictionary it builds -----

  /** The part of the registry `getPrintInformation` reads. */
  datatype Registry = Registry(categories: seq<string>, possibleNone: map<string, seq<string>>,
                               params: Params, names: map<string, seq<string>>,
                               ids: seq<string>, categoryOf: map<string, string>)

  /** Every known name leads to its record, and every category to its records. */
  predicate Located(reg: Registry) {
    (forall n :: n in reg.ids ==> n in reg.categoryOf && reg.categoryOf[n] in reg.params
                                  && n in reg.params[reg.categoryOf[n]])
    && Walkable(reg.params, reg.categories, reg.names)
  }

  /** `d[k]` for the dictionary with entries `es`, or nothing when `k` is no key. */
  function Find(es: seq<Entry>, k: string): Option<PrintNode> {
    if es == [] then None else if es[0].item == k then Some(es[0].node) else Find(es[1..], k)
  }

  /** `d[k] = n`: a key already present keeps its place, a new key goes last. */
  function Put(es: seq<Entry>, k: string, n: PrintNode): (r: seq<Entry>)
    ensures Find(r, k) == Some(n)
    ensures forall k2 :: k2 != k ==> Find(r, k2) == Find(es, k2)
    ensures Find(es, k).None? ==> r == es + [Entry(k, n)]
  {
    if es == [] then [Entry(k, n)]
    else if es[0].item == k then [Entry(k, n)] + es[1..]
    else [es[0]] + Put(es[1..], k, n)
  }

  /** A second assignment to the same key overrides the first. */
  lemma {:induction false} PutPut(es: seq<Entry>, k: string, a: PrintNode, b: PrintNode)
    ensures Put(Put(es, k, a), k, b) == Put(es, k, b)
  {
    if es != [] && es[0].item != k {
      PutPut(es[1..], k, a, b);
      assert Put(es, k, a)[1..] == Put(es[1..], k, a);
    }
  }

  /** The node the key path leads to from the root dictionary. The source holds
      a reference `paramDict` into the nested dictionary; the model holds the
      keys that lead there. */
  function At(root: seq<Entry>, path: seq<string>): Option<PrintNode>
    decreases |path|
  {
    if path == [] then Some(Section(root))
    else match Find(root, path[0])
      case Some(Section(sub)) => At(sub, path[1..])
      case Some(n) => if |path| == 1 then Some(n) else None
      case None => None
  }

  predicate IsDict(root: seq<Entry>, path: seq<string>) {
    At(root, path).Some? && At(root, path).value.Section?
  }

  /** `paramDict[k] = n` for the dictionary the path leads to. */
  function PutAt(root: seq<Entry>, path: seq<string>, k: string, n: PrintNode): (r: seq<Entry>)
    requires IsDict(root, path)
    ensures IsDict(r, path) && At(r, path).value.entries == Put(At(root, path).value.entries, k, n)
    ensures path == [] ==> r == Put(root, k, n)
    ensures path != [] ==> forall k2 :: k2 != path[0] ==> Find(r, k2) == Find(root, k2)
    decreases |path|
  {
    if path == [] then Put(root, k, n)
    else
      var sub := Find(root, path[0]).value.entries;
      Put(root, path[0], Section(PutAt(sub, path[1..], k, n)))
  }

  lemma {:induction false} PutAtPutAt(root: seq<Entry>, path: seq<string>, k: string, a: PrintNode, b: PrintNode)
    requires IsDict(root, path)
    ensures PutAt(PutAt(root, path, k, a), path, k, b) == PutAt(root, path, k, b)
    decreases |path|
  {
    if path == [] {
      PutPut(root, k, a, b);
    } else {
      var sub := Find(root, path[0]).value.entries;
      PutAtPutAt(sub, path[1..], k, a, b);
      PutPut(root, path[0], Section(PutAt(sub, path[1..], k, a)), Section(PutAt(sub, path[1..], k, b)));
    }
  }

  /** Python's `==` on these values: numbers compare by value across bool,
      int and float, lists item by item, and different kinds are unequal. */
  function PyEq(a: Value, b: Value): bool
    decreases a
  {
    if AsNumber(a).Some? && AsNumber(b).Some? then AsNumber(a) == AsNumber(b)
    else match (a, b)
      case (VNone, VNone) => true
      case (VStr(s), VStr(t)) => s == t
      case (VList(xs), VList(ys)) => |xs| == |ys| && forall k :: 0 <= k < |xs| ==> PyEq(xs[k], ys[k])
      case _ => false
  }

  function AsNumber(v: Value): Option<real> {
    match v
    case VBool(b) => Some(if b then 1.0 else 0.0)
    case VInt(i) => Some(i as real)
    case VReal(r) => Some(r)
    case _ => None
  }

  /** Every value equals itself. */
  lemma {:induction false} PyEqReflexive(a: Value)
    ensures PyEq(a, a)
    decreases a
  {
    if a.VList? {
      forall k | 0 <= k < |a.items| ensures PyEq(a.items[k], a.items[k]) {
        PyEqReflexive(a.items[k]);
      }
    }
  }

  /** `True == 1 == 1.0`, as in Python. */
  lemma BoolIntRealEqual()
    ensures PyEq(VBool(true), VInt(1)) && PyEq(VInt(1), VReal(1.0)) && !PyEq(VStr("1"), VInt(1))
  {
  }

  /** The text a None-valued category is replaced by. */
  function Described(d: Option<string>): PrintNode {
    if d.None? then NoneText else Label(d.value)
  }

  /** Where the walk down one category's path stands: the dictionary built so
      far, the keys to `paramDict`, and the `noneCat` flag. */
  datatype Walk = Walk(root: seq<Entry>, path: seq<string>, noneCat: bool)

  /** The record `__getParamDict(pname)` returns; `pname` must be known. */
  function Record(reg: Registry, pname: string): Param
    requires Located(reg) && pname in reg.ids
  {
    reg.params[reg.categoryOf[pname]][pname]
  }

  /** One possible-None parameter at one level: when it holds its none value,
      `paramDict[cat]` becomes its none-description and `noneCat` is set. */
  function NoneLabel(reg: Registry, w: Walk, cat: string, pname: string): Result<Walk>
    requires Located(reg)
  {
    if pname !in reg.ids then Err(Exception("ERROR: Unknown parameter " + pname + "."))
    else if !PyEq(Record(reg, pname).value, Record(reg, pname).noneValue) then Ok(w)
    else if !IsDict(w.root, w.path) then Err(TypeError)
    else Ok(Walk(PutAt(w.root, w.path, cat, Described(Record(reg, pname).noneDescription)), w.path, true))
  }

  /** The loop over `possibleNoneCategories[curCat]`. */
  function NoneLabels(reg: Registry, w: Walk, cat: string, labels: seq<string>): Result<Walk>
    requires Located(reg)
    decreases |labels|
  {
    if labels == [] then Ok(w)
    else match NoneLabels(reg, w, cat, labels[..|labels| - 1])
      case Err(e) => Err(e)
      case Ok(w1) => NoneLabel(reg, w1, cat, labels[|labels| - 1])
  }

  /** The possible-None parameters listed for a category prefix. */
  function NoneList(reg: Registry, curCat: string): seq<string> {
    if curCat in reg.possibleNone then reg.possibleNone[curCat] else []
  }

  /** Level `i` of a category split on its dots: the none tests of the prefix
      `'.'.join(parts[:i+1])`, then, unless a category on the way was
      replaced, the step into `paramDict[parts[i]]`, created when missing. */
  function Level(reg: Registry, w: Walk, parts: seq<string>, i: nat): Result<Walk>
    requires Located(reg) && i < |parts|
  {
    match NoneLabels(reg, w, parts[i], NoneList(reg, JoinDots(parts[..i + 1])))
    case Err(e) => Err(e)
    case Ok(w1) =>
      if w1.noneCat then Ok(w1)
      else if !IsDict(w1.root, w1.path) then Err(AttributeError("keys"))
      else if Find(At(w1.root, w1.path).value.entries, parts[i]).None? then
        Ok(Walk(PutAt(w1.root, w1.path, parts[i], Section([])), w1.path + [parts[i]], false))
      else Ok(Walk(w1.root, w1.path + [parts[i]], false))
  }

  /** The first `n` levels. */
  function Levels(reg: Registry, w: Walk, parts: seq<string>, n: nat): Result<Walk>
    requires Located(reg) && n <= |parts|
  {
    if n == 0 then Ok(w)
    else match Levels(reg, w, parts, n - 1)
      case Err(e) => Err(e)
      case Ok(w1) => Level(reg, w1, parts, n - 1)
  }

  /** The closing loop of a category that was not replaced: each of its
      parameters becomes `[description, value]` in `paramDict`. */
  function Fill(reg: Registry, w: Walk, c: string, labels: seq<string>): Result<seq<Entry>>
    requires c in reg.params && forall l :: l in labels ==> l in reg.params[c]
    decreases |labels|
  {
    if labels == [] then Ok(w.root)
    else match Fill(reg, w, c, labels[..|labels| - 1])
      case Err(e) => Err(e)
      case Ok(root) =>
        var l := labels[|labels| - 1];
        if !IsDict(root, w.path) then Err(TypeError)
        else Ok(PutAt(root, w.path, l, Setting(reg.params[c][l].description, reg.params[c][l].value)))
  }

  /** One pass of the loop over `__paramCategories`. */
  function AddCategory(reg: Registry, root: seq<Entry>, c: string): Result<seq<Entry>>
    requires Located(reg) && c in reg.categories
  {
    var parts := SplitDots(c);
    match Levels(reg, Walk(root, [], false), parts, |parts|)
    case Err(e) => Err(e)
    case Ok(w) => if w.noneCat then Ok(w.root) else Fill(reg, w, c, reg.names[c])
  }

  /** The dictionary built from the categories `cats`, in order. */
  function Build(reg: Registry, cats: seq<string>): Result<seq<Entry>>
    requires Located(reg) && forall c :: c in cats ==> c in reg.categories
  {
    if cats == [] then Ok([])
    else match Build(reg, cats[..|cats| - 1])
      case Err(e) => Err(e)
      case Ok(root) => AddCategory(reg, root, cats[|cats| - 1])
  }

  /** `getPrintInformation`: the printout of the built dictionary, or the
      exception building or printing it raises. */
  function PrintInformation(reg: Registry, show: Value -> string): Result<string>
    requires Located(reg)
  {
    match Build(reg, reg.categories)
    case Err(e) => Err(e)
    case Ok(root) => if Printable(root) then Ok(PrintInfo(root, 0, show)) else Err(TypeError)
  }

  // The loops of `getPrintInformation`, each proved against its function above.
  // An exception ends the whole call, so an error met at step `i` is the result.

  lemma {:induction false} NoneLabelsStuck(reg: Registry, w: Walk, cat: string, pnames: seq<string>, i: nat)
    requires Located(reg) && i <= |pnames| && NoneLabels(reg, w, cat, pnames[..i]).Err?
    ensures NoneLabels(reg, w, cat, pnames) == NoneLabels(reg, w, cat, pnames[..i])
    decreases |pnames|
  {
    if i < |pnames| {
      var init := pnames[..|pnames| - 1];
      assert init[..i] == pnames[..i];
      NoneLabelsStuck(reg, w, cat, init, i);
    } else {
      assert pnames[..i] == pnames;
    }
  }

  lemma {:induction false} LevelsStuck(reg: Registry, w: Walk, parts: seq<string>, i: nat, n: nat)
    requires Located(reg) && i <= n <= |parts| && Levels(reg, w, parts, i).Err?
    ensures Levels(reg, w, parts, n) == Levels(reg, w, parts, i)
    decreases n
  {
    if i < n {
      LevelsStuck(reg, w, parts, i, n - 1);
    }
  }

  lemma {:induction false} FillStuck(reg: Registry, w: Walk, c: string, pnames: seq<string>, i: nat)
    requires c in reg.params && forall l :: l in pnames ==> l in reg.params[c]
    requires i <= |pnames| && Fill(reg, w, c, pnames[..i]).Err?
    ensures Fill(reg, w, c, pnames) == Fill(reg, w, c, pnames[..i])
    decreases |pnames|
  {
    if i < |pnames| {
      var init := pnames[..|pnames| - 1];
      assert init[..i] == pnames[..i];
      FillStuck(reg, w, c, init, i);
    } else {
      assert pnames[..i] == pnames;
    }
  }

  lemma {:induction false} BuildStuck(reg: Registry, cats: seq<string>, i: nat)
    requires Located(reg) && (forall c :: c in cats ==> c in reg.categories)
    requires i <= |cats| && Build(reg, cats[..i]).Err?
    ensures Build(reg, cats) == Build(reg, cats[..i])
    decreases |cats|
  {
    if i < |cats| {
      var init := cats[..|cats| - 1];
      assert init[..i] == cats[..i];
      BuildStuck(reg, init, i);
    } else {
      assert cats[..i] == cats;
    }
  }

  /** The loop over `possibleNoneCategories[curCat]`. */
  method RunNoneLabels(reg: Registry, w0: Walk, cat: string, pnames: seq<string>) returns (r: Result<Walk>)
    requires Located(reg)
    ensures r == NoneLabels(reg, w0, cat, pnames)
  {
    var w := w0;
    var i := 0;
    while i < |pnames|
      invariant 0 <= i <= |pnames|
      invariant NoneLabels(reg, w0, cat, pnames[..i]) == Ok(w)
    {
      assert pnames[..i + 1][..i] == pnames[..i];
      var pname := pnames[i];
      if pname !in reg.ids {
        NoneLabelsStuck(reg, w0, cat, pnames, i + 1);
        return Err(Exception("ERROR: Unknown parameter " + pname + "."));
      }
      var p := reg.params[reg.categoryOf[pname]][pname];
      if PyEq(p.value, p.noneValue) {
        if !IsDict(w.root, w.path) {
          NoneLabelsStuck(reg, w0, cat, pnames, i + 1);
          return Err(TypeError);
        }
        w := Walk(PutAt(w.root, w.path, cat, Described(p.noneDescription)), w.path, true);
      }
      i := i + 1;
    }
    assert pnames[..i] == pnames;
    r := Ok(w);
  }

  /** The closing loop of a category that was not replaced. */
  method RunFill(reg: Registry, w: Walk, c: string, pnames: seq<string>) returns (r: Result<seq<Entry>>)
    requires c in reg.params && forall l :: l in pnames ==> l in reg.params[c]
    ensures r == Fill(reg, w, c, pnames)
  {
    var root := w.root;
    var i := 0;
    while i < |pnames|
      invariant 0 <= i <= |pnames|
      invariant Fill(reg, w, c, pnames[..i]) == Ok(root)
    {
      assert pnames[..i + 1][..i] == pnames[..i];
      var pname := pnames[i];
      if !IsDict(root, w.path) {
        FillStuck(reg, w, c, pnames, i + 1);
        return Err(TypeError);
      }
      root := PutAt(root, w.path, pname, Setting(reg.params[c][pname].description, reg.params[c][pname].value));
      i := i + 1;
    }
    assert pnames[..i] == pnames;
    r := Ok(root);
  }

  /** One pass of the loop over the dot-separated parts of a category. */
  method RunLevel(reg: Registry, w: Walk, parts: seq<string>, i: nat) returns (r: Result<Walk>)
    requires Located(reg) && i < |parts|
    ensures r == Level(reg, w, parts, i)
  {
    var checked := RunNoneLabels(reg, w, parts[i], NoneList(reg, JoinDots(parts[..i + 1])));
    if checked.Err? {
      return Err(checked.error);
    }
    var w1 := checked.value;
    if w1.noneCat {
      return Ok(w1);
    }
    if !IsDict(w1.root, w1.path) {
      return Err(AttributeError("keys"));
    }
    if Find(At(w1.root, w1.path).value.entries, parts[i]).None? {
      r := Ok(Walk(PutAt(w1.root, w1.path, parts[i], Section([])), w1.path + [parts[i]], false));
    } else {
      r := Ok(Walk(w1.root, w1.path + [parts[i]], false));
    }
  }

  /** One pass of the loop over `__paramCategories`: the walk down the
      category's path, then its parameters. */
  method RunCategory(reg: Registry, root: seq<Entry>, c: string) returns (r: Result<seq<Entry>>)
    requires Located(reg) && c in reg.categories
    ensures r == AddCategory(reg, root, c)
  {
    var parts := SplitDots(c);
    var walked: Result<Walk> := Ok(Walk(root, [], false));
    var i := 0;
    while i < |parts| && walked.Ok?
      invariant 0 <= i <= |parts|
      invariant Levels(reg, Walk(root, [], false), parts, i) == walked
    {
      walked := RunLevel(reg, walked.value, parts, i);
      i := i + 1;
    }
    if walked.Err? {
      LevelsStuck(reg, Walk(root, [], false), parts, i, |parts|);
      return Err(walked.error);
    }
    var w := walked.value;
    if w.noneCat {
      return Ok(w.root);
    }
    r := RunFill(reg, w, c, reg.names[c]);
  }

  /** The loop over `__paramCategories`. */
  method RunBuild(reg: Registry, cats: seq<string>) returns (r: Result<seq<Entry>>)
    requires Located(reg) && forall c :: c in cats ==> c in reg.categories
    ensures r == Build(reg, cats)
  {
    var root := [];
    var i := 0;
    while i < |cats|
      invariant 0 <= i <= |cats|
      invariant Build(reg, cats[..i]) == Ok(root)
    {
      assert cats[..i + 1][..i] == cats[..i];
      var added := RunCategory(reg, root, cats[i]);
      if added.Err? {
        BuildStuck(reg, cats, i + 1);
        return Err(added.error);
      }
      root := added.value;
      i := i + 1;
    }
    assert cats[..i] == cats;
    r := Ok(root);
  }

  // ----- what the built dictionary holds -----

  /** The last of `pnames` whose parameter holds its none value. */
  function LastNone(reg: Registry, pnames: seq<string>): (r: Option<string>)
    requires Located(reg) && forall l :: l in pnames ==> l in reg.ids
    ensures r.Some? ==> r.value in pnames && PyEq(Record(reg, r.value).value, Record(reg, r.value).noneValue)
  {
    if pnames == [] then None
    else
      var l := pnames[|pnames| - 1];
      if PyEq(Record(reg, l).value, Record(reg, l).noneValue) then Some(l)
      else LastNone(reg, pnames[..|pnames| - 1])
  }

  /** The none tests of one level raise nothing when every parameter is known
      and `paramDict` is a dictionary; they leave the walk as it was when no
      parameter holds its none value, and otherwise set `paramDict[cat]` to the
      none-description of the last one that does. */
  lemma {:induction false} NoneLabelsSpec(reg: Registry, w: Walk, cat: string, pnames: seq<string>)
    requires Located(reg) && (forall l :: l in pnames ==> l in reg.ids) && IsDict(w.root, w.path)
    ensures NoneLabels(reg, w, cat, pnames) ==
            Ok(match LastNone(reg, pnames)
               case None => w
               case Some(l) => Walk(PutAt(w.root, w.path, cat, Described(Record(reg, l).noneDescription)), w.path, true))
    decreases |pnames|
  {
    if pnames != [] {
      var init := pnames[..|pnames| - 1];
      var l := pnames[|pnames| - 1];
      assert forall x :: x in init ==> x in pnames;
      NoneLabelsSpec(reg, w, cat, init);
      if PyEq(Record(reg, l).value, Record(reg, l).noneValue) {
        match LastNone(reg, init)
        case None =>
        case Some(l0) =>
          PutAtPutAt(w.root, w.path, cat, Described(Record(reg, l0).noneDescription),
                     Described(Record(reg, l).noneDescription));
      }
    }
  }

  /** `r` is `w.root` with `paramDict` still a dictionary, each parameter of
      `pnames` set in it to its `[description, value]`, and the other keys of
      `paramDict` and of the root as they were. */
  ghost predicate Filled(reg: Registry, w: Walk, c: string, pnames: seq<string>, r: seq<Entry>)
    requires c in reg.params && forall l :: l in pnames ==> l in reg.params[c]
    requires IsDict(w.root, w.path)
  {
    IsDict(r, w.path)
    && (forall n :: n in pnames ==>
          Find(At(r, w.path).value.entries, n) == Some(Setting(reg.params[c][n].description, reg.params[c][n].value)))
    && (forall k :: k !in pnames ==> Find(At(r, w.path).value.entries, k) == Find(At(w.root, w.path).value.entries, k))
    && (w.path != [] ==> forall k :: k != w.path[0] ==> Find(r, k) == Find(w.root, k))
  }

  /** The closing loop raises nothing when `paramDict` is a dictionary, and sets
      each parameter of the category to its `[description, value]`, leaving
      the other keys of `paramDict` and of the root as they were. */
  lemma {:induction false} FillSpec(reg: Registry, w: Walk, c: string, pnames: seq<string>)
    requires c in reg.params && (forall l :: l in pnames ==> l in reg.params[c]) && IsDict(w.root, w.path)
    ensures Fill(reg, w, c, pnames).Ok? && Filled(reg, w, c, pnames, Fill(reg, w, c, pnames).value)
    decreases |pnames|
  {
    if pnames != [] {
      var init, l := pnames[..|pnames| - 1], pnames[|pnames| - 1];
      assert pnames == init + [l];
      assert forall x :: x in init ==> x in pnames;
      FillSpec(reg, w, c, init);
      var r0 := Fill(reg, w, c, init).value;
      assert Fill(reg, w, c, pnames) == Ok(PutAt(r0, w.path, l, Setting(reg.params[c][l].description, reg.params[c][l].value)));
      FillStep(reg, w, c, init, l, pnames, r0);
    }
  }

  /** One more pass of the closing loop keeps `Filled`. */
  lemma FillStep(reg: Registry, w: Walk, c: string, init: seq<string>, l: string, pnames: seq<string>, r0: seq<Entry>)
    requires c in reg.params && (forall x :: x in pnames ==> x in reg.params[c]) && pnames == init + [l]
    requires IsDict(w.root, w.path) && Filled(reg, w, c, init, r0)
    ensures Filled(reg, w, c, pnames, PutAt(r0, w.path, l, Setting(reg.params[c][l].description, reg.params[c][l].value)))
  {
    var v := Setting(reg.params[c][l].description, reg.params[c][l].value);
    var r := PutAt(r0, w.path, l, v);
    var d0 := At(r0, w.path).value.entries;
    assert At(r, w.path).value.entries == Put(d0, l, v);
    forall n | n in pnames
      ensures Find(At(r, w.path).value.entries, n) == Some(Setting(reg.params[c][n].description, reg.params[c][n].value))
    {
      if n != l {
        assert n in init;
      }
    }
    forall k | k !in pnames
      ensures Find(At(r, w.path).value.entries, k) == Find(At(w.root, w.path).value.entries, k)
    {
      assert k !in init && k != l;
    }
  }

  /** A category without dots whose possible-None parameter holds its none
      value is replaced, at the top of the dictionary, by the none-description
      of the last such parameter, and none of its parameters is added. */
  lemma NoneCategory(reg: Registry, root: seq<Entry>, c: string)
    requires Located(reg) && c in reg.categories && '.' !in c
    requires forall l :: l in NoneList(reg, c) ==> l in reg.ids
    requires LastNone(reg, NoneList(reg, c)).Some?
    ensures AddCategory(reg, root, c)
            == Ok(Put(root, c, Described(Record(reg, LastNone(reg, NoneList(reg, c)).value).noneDescription)))
  {
    var w := Walk(root, [], false);
    assert SplitDots(c) == [c] && [c][..1] == [c];
    NoneLabelsSpec(reg, w, c, NoneList(reg, c));
    assert Levels(reg, w, [c], 1) == Level(reg, w, [c], 0);
  }

  /** A category without dots whose possible-None parameters all differ from
      their none values becomes a dictionary under its name holding each of
      its parameters as `[description, value]`; the other keys stay as they were. */
  lemma PlainCategory(reg: Registry, root: seq<Entry>, c: string)
    requires Located(reg) && c in reg.categories && '.' !in c
    requires forall l :: l in NoneList(reg, c) ==> l in reg.ids
    requires LastNone(reg, NoneList(reg, c)).None?
    requires Find(root, c).None? || Find(root, c).value.Section?
    ensures AddCategory(reg, root, c).Ok?
    ensures var r := AddCategory(reg, root, c).value;
            Find(r, c).Some? && Find(r, c).value.Section?
            && (forall n :: n in reg.names[c] ==>
                  Find(Find(r, c).value.entries, n) == Some(Setting(reg.params[c][n].description, reg.params[c][n].value)))
            && (forall k :: k != c ==> Find(r, k) == Find(root, k))
  {
    var w := Walk(root, [], false);
    assert SplitDots(c) == [c] && [c][..1] == [c];
    NoneLabelsSpec(reg, w, c, NoneList(reg, c));
    assert Levels(reg, w, [c], 1) == Level(reg, w, [c], 0);
    var w2 := Level(reg, w, [c], 0).value;
    assert w2.path == [c] && !w2.noneCat;
    assert forall k :: k != c ==> Find(w2.root, k) == Find(root, k);
    assert IsDict(w2.root, [c]);
    FillSpec(reg, w2, c, reg.names[c]);
    assert AddCategory(reg, root, c) == Fill(reg, w2, c, reg.names[c]);
    var r := Fill(reg, w2, c, reg.names[c]).value;
    assert [c][1..] == [] && At(r, [c]) == Find(r, c);
  }

  /** Once a category prefix is replaced, `paramDict` stays where it was: the
      none-description of a deeper prefix `x.y` is written under `y` in the
      same dictionary as `x`, here the top one. */
  lemma DeeperNoneStaysUp(reg: Registry, root: seq<Entry>, c: string, x: string, y: string)
    requires Located(reg) && c in reg.categories && SplitDots(c) == [x, y]
    requires (forall l :: l in NoneList(reg, x) ==> l in reg.ids) && LastNone(reg, NoneList(reg, x)).Some?
    requires (forall l :: l in NoneList(reg, c) ==> l in reg.ids) && LastNone(reg, NoneList(reg, c)).Some?
    ensures AddCategory(reg, root, c)
            == Ok(Put(Put(root, x, Described(Record(reg, LastNone(reg, NoneList(reg, x)).value).noneDescription)),
                      y, Described(Record(reg, LastNone(reg, NoneList(reg, c)).value).noneDescription)))
  {
    var parts := [x, y];
    JoinSplit(c);
    assert JoinDots(parts[..1]) == x && JoinDots(parts[..2]) == c;
    var w := Walk(root, [], false);
    NoneLabelsSpec(reg, w, x, NoneList(reg, x));
    assert Levels(reg, w, parts, 1) == Level(reg, w, parts, 0);
    var w1 := Level(reg, w, parts, 0).value;
    NoneLabelsSpec(reg, w1, y, NoneList(reg, c));
  }

  /** A category replaced by a missing none-description makes the printout
      raise TypeError. */
  lemma {:induction false} NoneTextUnprintable(es: seq<Entry>, k: string)
    requires Find(es, k) == Some(NoneText)
    ensures !Printable(es)
    decreases |es|
  {
    if es[0].item != k {
      NoneTextUnprintable(es[1..], k);
    }
  }

  /** Every listed category has a name list and records for all its names. */
  predicate Walkable(params: Params, cats: seq<string>, names: map<string, seq<string>>) {
    forall c :: c in cats ==> c in names && c in params && forall n :: n in names[c] ==> n in params[c]
  }

  lemma EntriesOfSnoc(params: Params, cats: seq<string>, names: map<string, seq<string>>, ci: nat)
    requires Walkable(params, cats, names) && ci < |cats|
    ensures Walkable(params, cats[..ci], names) && Stored(params, EntriesOf(cats[..ci], names))
    ensures EntriesOf(cats[..ci + 1], names) == EntriesOf(cats[..ci], names) + Pairs(cats[ci], names[cats[ci]])
  {
    assert cats[..ci + 1][..ci] == cats[..ci];
  }

  lemma LastMatchSnoc(params: Params, es: seq<(string, string)>, e: (string, string), up: string)
    requires Stored(params, es) && e.0 in params && e.1 in params[e.0]
    ensures Stored(params, es + [e])
    ensures LastMatch(params, es + [e], up) == if up in params[e.0][e.1].keywords then Some(e.1) else LastMatch(params, es, up)
  {
    assert (es + [e])[..|es|] == es;
  }

  lemma CollectSnoc(params: Params, es: seq<(string, string)>, e: (string, string))
    requires Stored(params, es) && e.0 in params && e.1 in params[e.0]
    ensures Stored(params, es + [e])
    ensures Collect(params, es + [e]) == Collect(params, es)[e.1 := params[e.0][e.1].value]
  {
    assert (es + [e])[..|es|] == es;
  }

  lemma PairsSnoc(c: string, ns: seq<string>, ni: nat)
    requires ni < |ns|
    ensures Pairs(c, ns[..ni + 1]) == Pairs(c, ns[..ni]) + [(c, ns[ni])]
  {
  }

  /** The inner loop of `getParamFromKeyword`, over the names of one category. */
  method FindKeywordIn(params: Params, done: seq<(string, string)>, cat: string, ns: seq<string>,
                       up: string, found0: Option<string>) returns (found: Option<string>)
    requires Stored(params, done) && cat in params && forall n :: n in ns ==> n in params[cat]
    requires found0 == LastMatch(params, done, up)
    ensures Stored(params, done + Pairs(cat, ns))
    ensures found == LastMatch(params, done + Pairs(cat, ns), up)
  {
    found := found0;
    assert done + Pairs(cat, ns[..0]) == done;
    var ni := 0;
    while ni < |ns|
      invariant 0 <= ni <= |ns|
      invariant Stored(params, done + Pairs(cat, ns[..ni]))
      invariant found == LastMatch(params, done + Pairs(cat, ns[..ni]), up)
    {
      ghost var es := done + Pairs(cat, ns[..ni]);
      PairsSnoc(cat, ns, ni);
      AppendAssoc(done, Pairs(cat, ns[..ni]), [(cat, ns[ni])]);
      LastMatchSnoc(params, es, (cat, ns[ni]), up);
      if up in params[cat][ns[ni]].keywords {
        found := Some(ns[ni]);
      }
      ni := ni + 1;
    }
    assert ns[..ni] == ns;
  }

  /** The nested loops of `getParamFromKeyword`. */
  method FindKeyword(params: Params, cats: seq<string>, names: map<string, seq<string>>, up: string)
    returns (found: Option<string>)
    requires Walkable(params, cats, names)
    ensures Stored(params, EntriesOf(cats, names))
    ensures found == LastMatch(params, EntriesOf(cats, names), up)
  {
    found := None;
    var ci := 0;
    while ci < |cats|
      invariant 0 <= ci <= |cats|
      invariant Stored(params, EntriesOf(cats[..ci], names))
      invariant found == LastMatch(params, EntriesOf(cats[..ci], names), up)
    {
      EntriesOfSnoc(params, cats, names, ci);
      found := FindKeywordIn(params, EntriesOf(cats[..ci], names), cats[ci], names[cats[ci]], up, found);
      ci := ci + 1;
    }
    assert cats[..ci] == cats;
  }

  /** The inner loop of `getAllParameters`, over the names of one category. */
  method CollectValuesIn(params: Params, done: seq<(string, string)>, cat: string, ns: seq<string>,
                         all0: map<string, Value>) returns (all: map<string, Value>)
    requires Stored(params, done) && cat in params && forall n :: n in ns ==> n in params[cat]
    requires all0 == Collect(params, done)
    ensures Stored(params, done + Pairs(cat, ns))
    ensures all == Collect(params, done + Pairs(cat, ns))
  {
    all := all0;
    assert done + Pairs(cat, ns[..0]) == done;
    var ni := 0;
    while ni < |ns|
      invariant 0 <= ni <= |ns|
      invariant Stored(params, done + Pairs(cat, ns[..ni]))
      invariant all == Collect(params, done + Pairs(cat, ns[..ni]))
    {
      ghost var es := done + Pairs(cat, ns[..ni]);
      PairsSnoc(cat, ns, ni);
      AppendAssoc(done, Pairs(cat, ns[..ni]), [(cat, ns[ni])]);
      CollectSnoc(params, es, (cat, ns[ni]));
      all := all[ns[ni] := params[cat][ns[ni]].value];
      ni := ni + 1;
    }
    assert ns[..ni] == ns;
  }

  /** The nested loops of `getAllParameters`. */
  method CollectValues(params: Params, cats: seq<string>, names: map<string, seq<string>>)
    returns (all: map<string, Value>)
    requires Walkable(params, cats, names)
    ensures Stored(params, EntriesOf(cats, names))
    ensures all == Collect(params, EntriesOf(cats, names))
  {
    all := map[];
    var ci := 0;
    while ci < |cats|
      invariant 0 <= ci <= |cats|
      invariant Stored(params, EntriesOf(cats[..ci], names))
      invariant all == Collect(params, EntriesOf(cats[..ci], names))
    {
      EntriesOfSnoc(params, cats, names, ci);
      all := CollectValuesIn(params, EntriesOf(cats[..ci], names), cats[ci], names[cats[ci]], all);
      ci := ci + 1;
    }
    assert cats[..ci] == cats;
  }


  // ----- the registry object -----

  /** Categories are listed once, and each category's name list is its records' names, once each. */
  ghost predicate Shaped(categories: seq<string>, names: map<string, seq<string>>, params: Params) {
    NoDup(categories)
    && (forall c :: c in categories <==> c in params)
    && (forall c :: c in names <==> c in params)
    && (forall c :: c in names ==> NoDup(names[c]) && (forall n :: n in names[c] <==> n in params[c]))
  }

  /** Every listed parameter has a category, and only those. */
  ghost predicate Indexed(ids: seq<string>, categoryOf: map<string, string>) {
    NoDup(ids) && (forall n :: n in ids <==> n in categoryOf)
  }

  lemma ShapedSameShape(categories: seq<string>, names: map<string, seq<string>>, params: Params, p2: Params)
    requires Shaped(categories, names, params) && SameShape(params, p2)
    ensures Shaped(categories, names, p2)
  {
  }

  /** The binding loop of `addParam`: each keyword now leads to the parameter. */
  method BindKeywords(kMap: map<string, (string, string)>, category: string, name: string, keywords: seq<string>)
    returns (bound: map<string, (string, string)>)
    ensures bound == kMap + map k | k in keywords :: (category, name)
  {
    bound := kMap;
    var i := 0;
    while i < |keywords|
      invariant 0 <= i <= |keywords|
      invariant bound == kMap + map k | k in keywords[..i] :: (category, name)
    {
      assert keywords[..i + 1] == keywords[..i] + [keywords[i]];
      bound := bound[keywords[i] := (category, name)];
      i := i + 1;
    }
    assert keywords[..i] == keywords;
  }

  /** The category list, name lists and records after `addParam`. */
  function AddedCategories(categories: seq<string>, category: string): seq<string> {
    if category in categories then categories else categories + [category]
  }

  function AddedNames(names: map<string, seq<string>>, category: string, name: string): map<string, seq<string>> {
    var before := if category in names then names[category] else [];
    names[category := if name in before then before else before + [name]]
  }

  function AddedParams(params: Params, category: string, name: string, p: Param): Params {
    var before := if category in params then params[category] else map[];
    params[category := before[name := p]]
  }

  lemma AddKeepsShaped(categories: seq<string>, names: map<string, seq<string>>, params: Params,
                       category: string, name: string, p: Param)
    requires Shaped(categories, names, params)
    ensures Shaped(AddedCategories(categories, category), AddedNames(names, category, name),
                   AddedParams(params, category, name, p))
  {
    var cats2 := AddedCategories(categories, category);
    var names2 := AddedNames(names, category, name);
    var params2 := AddedParams(params, category, name, p);
    assert NoDup(cats2) by {
      if category !in categories {
        NoDupSnoc(categories, category);
      }
    }
    var before := if category in names then names[category] else [];
    assert NoDup(names2[category]) by {
      if name !in before {
        NoDupSnoc(before, name);
      }
    }
  }

  lemma AddKeepsIndexed(ids: seq<string>, categoryOf: map<string, string>, name: string, category: string)
    requires Indexed(ids, categoryOf)
    ensures Indexed(if name in ids then ids else ids + [name], categoryOf[name := category])
  {
    if name !in ids {
      NoDupSnoc(ids, name);
    }
  }

  lemma AddKeepsLinked(params: Params, categoryOf: map<string, string>, keywordMap: map<string, (string, string)>,
                       ids: seq<string>, category: string, name: string, p: Param, keywords: seq<string>)
    requires Linked(params, categoryOf, keywordMap)
    ensures Linked(AddedParams(params, category, name, p), categoryOf[name := category],
                   if name in ids then keywordMap else keywordMap + map k | k in keywords :: (category, name))
  {
  }

  /** The registry's invariant: its lists, records and indexes agree. */
  ghost predicate Consistent(categories: seq<string>, names: map<string, seq<string>>, params: Params,
                             ids: seq<string>, categoryOf: map<string, string>,
                             keywordMap: map<string, (string, string)>)
  {
    Shaped(categories, names, params) && Indexed(ids, categoryOf) && Linked(params, categoryOf, keywordMap)
  }

  lemma AddKeepsConsistent(categories: seq<string>, names: map<string, seq<string>>, params: Params,
                           ids: seq<string>, categoryOf: map<string, string>,
                           keywordMap: map<string, (string, string)>,
                           category: string, name: string, p: Param, keywords: seq<string>,
                           categories2: seq<string>, names2: map<string, seq<string>>, params2: Params,
                           ids2: seq<string>, categoryOf2: map<string, string>,
                           keywordMap2: map<string, (string, string)>)
    requires Consistent(categories, names, params, ids, categoryOf, keywordMap)
    requires categories2 == AddedCategories(categories, category)
    requires names2 == AddedNames(names, category, name)
    requires params2 == AddedParams(params, category, name, p)
    requires ids2 == if name in ids then ids else ids + [name]
    requires categoryOf2 == categoryOf[name := category]
    requires keywordMap2 == if name in ids then keywordMap else keywordMap + map k | k in keywords :: (category, name)
    ensures Consistent(categories2, names2, params2, ids2, categoryOf2, keywordMap2)
  {
    AddKeepsShaped(categories, names, params, category, name, p);
    AddKeepsIndexed(ids, categoryOf, name, category);
    AddKeepsLinked(params, categoryOf, keywordMap, ids, category, name, p, keywords);
  }

  class Manager {
    var categories: seq<string>
    var possibleNone: map<string, seq<string>>
    var params: Params
    var names: map<string, seq<string>>
    var keywordMap: map<string, (string, string)>
    var ids: seq<string>
    var categoryOf: map<string, string>

    ghost predicate Valid()
      reads this`categories, this`params, this`names, this`keywordMap, this`ids, this`categoryOf
    {
      Consistent(categories, names, params, ids, categoryOf, keywordMap)
    }

    constructor ()
      ensures Valid()
      ensures categories == [] && possibleNone == map[] && params == map[] && names == map[]
      ensures keywordMap == map[] && ids == [] && categoryOf == map[]
    {
      categories := [];
      possibleNone := map[];
      params := map[];
      names := map[];
      keywordMap := map[];
      ids := [];
      categoryOf := map[];
    }

    /** An order Python 2 may visit `params` in: every category once, and
        within category `c` every name of `c` once. */
    ghost predicate HashOrder(cats: seq<string>, order: map<string, seq<string>>)
      reads this`categories, this`names
    {
      Permutes(cats, categories) && forall c :: c in cats ==> c in order && c in names && Permutes(order[c], names[c])
    }

    /** The records in the visiting order `cats`, `order`. */
    function Entries(cats: seq<string>, order: map<string, seq<string>>): (es: seq<(string, string)>)
      reads this
      requires Valid() && HashOrder(cats, order)
      ensures Stored(params, es)
      ensures forall c, n :: c in params && n in params[c] ==> (c, n) in es
    {
      EntriesOfComplete(cats, order);
      EntriesOf(cats, order)
    }

    /** The order the records were added in is one Python 2 may visit them in. */
    lemma InsertionOrder()
      requires Valid()
      ensures HashOrder(categories, names)
    {
    }

    /** `__addPossibleNoneCategory`: appends the pname, even when it is already listed. */
    method AddPossibleNoneCategory(category: string, pname: string)
      modifies this`possibleNone
      ensures possibleNone == old(possibleNone)[category :=
                (if category in old(possibleNone) then old(possibleNone)[category] else []) + [pname]]
    {
      if category !in possibleNone {
        possibleNone := possibleNone[category := []];
      }
      possibleNone := possibleNone[category := possibleNone[category] + [pname]];
    }

    /** `addParam`: keywords are bound only when the name is new; the record is
        always (re)written and the name's category is the latest one given. */
    method AddParam(category: string, name: string, keywords: seq<string>, description: string,
                    check: Value -> Option<Error>, value: Value, change: Option<string>,
                    noneValue: Value, noneDescription: Option<string>)
      requires Valid()
      modifies this
      ensures Valid()
      ensures ids == if name in old(ids) then old(ids) else old(ids) + [name]
      ensures keywordMap == if name in old(ids) then old(keywordMap)
                            else old(keywordMap) + map k | k in keywords :: (category, name)
      ensures categories == AddedCategories(old(categories), category)
      ensures names == AddedNames(old(names), category, name)
      ensures params == AddedParams(old(params), category, name,
                                    Param(description, value, check, change, noneValue, noneDescription, keywords))
      ensures categoryOf == old(categoryOf)[name := category]
      ensures possibleNone == if noneValue == VNone then old(possibleNone)
                              else old(possibleNone)[category :=
                                (if category in old(possibleNone) then old(possibleNone)[category] else []) + [name]]
    {
      Register(category, name, keywords, Param(description, value, check, change, noneValue, noneDescription, keywords));
      if noneValue != VNone {
        AddPossibleNoneCategory(category, name);
      }
    }

    /** Steps 1 to 3 of `addParam`: the name, its keywords, its category and its record. */
    method Register(category: string, name: string, keywords: seq<string>, p: Param)
      requires Valid()
      modifies this`ids, this`keywordMap, this`categories, this`names, this`params, this`categoryOf
      ensures Valid()
      ensures ids == if name in old(ids) then old(ids) else old(ids) + [name]
      ensures keywordMap == if name in old(ids) then old(keywordMap)
                            else old(keywordMap) + map k | k in keywords :: (category, name)
      ensures categories == AddedCategories(old(categories), category)
      ensures names == AddedNames(old(names), category, name)
      ensures params == AddedParams(old(params), category, name, p)
      ensures categoryOf == old(categoryOf)[name := category]
    {
      // 1- the list of all parameters and the keyword bindings
      if name !in ids {
        ids := ids + [name];
        keywordMap := BindKeywords(keywordMap, category, name, keywords);
      }
      // 2- the category, 3- the record
      categories := AddedCategories(categories, category);
      names := AddedNames(names, category, name);
      params := AddedParams(params, category, name, p);
      categoryOf := categoryOf[name := category];
      AddKeepsConsistent(old(categories), old(names), old(params), old(ids), old(categoryOf), old(keywordMap),
                         category, name, p, keywords, categories, names, params, ids, categoryOf, keywordMap);
    }

    /** The fields `getPrintInformation` reads. */
    function Snapshot(): (reg: Registry)
      reads this
      ensures reg.categories == categories && reg.possibleNone == possibleNone && reg.params == params
      ensures reg.names == names && reg.ids == ids && reg.categoryOf == categoryOf
    {
      Registry(categories, possibleNone, params, names, ids, categoryOf)
    }

    /** `getPrintInformation`: the printout of the nested dictionary, or the
        exception building or printing it raises. `show` is `str()`. */
    method GetPrintInformation(show: Value -> string) returns (r: Result<string>)
      requires Valid()
      ensures Located(Snapshot()) && r == PrintInformation(Snapshot(), show)
    {
      var reg := Registry(categories, possibleNone, params, names, ids, categoryOf);
      var built := RunBuild(reg, categories);
      if built.Err? {
        return Err(built.error);
      }
      if !Printable(built.value) {
        return Err(TypeError);
      }
      r := Ok(PrintInfo(built.value, 0, show));
    }

    /** `getParam`: the stored value, or the unknown-parameter exception. */
    function GetParam(pname: string): (r: Result<Value>)
      reads this
      requires Valid()
      ensures pname !in ids ==> r == Err(Exception("ERROR: Unknown parameter " + pname + "."))
      ensures pname in ids ==> r.Ok? && r.value == params[categoryOf[pname]][pname].value
    {
      if pname !in ids then Err(Exception("ERROR: Unknown parameter " + pname + "."))
      else Ok(params[categoryOf[pname]][pname].value)
    }

    /** `setParameters(**kwargs)`, the keyword arguments in the order given. */
    method SetParameters(kwargs: seq<(string, Value)>) returns (status: Status, notified: seq<(string, Value)>)
      requires Valid()
      modifies this`params
      ensures Valid()
      ensures var r := ApplySettings(old(params), categoryOf, keywordMap, ids, kwargs);
              params == r.params && notified == r.notified && status == r.status
    {
      var outcome := RunSettings(params, categoryOf, keywordMap, ids, kwargs);
      ShapedSameShape(categories, names, params, outcome.params);
      params := outcome.params;
      status := outcome.status;
      notified := outcome.notified;
    }

    /** `getParamFromKeyword`: the last parameter, in the visiting order, whose
        keywords contain the upper-cased keyword. */
    method GetParamFromKeyword(keyword: string, cats: seq<string>, order: map<string, seq<string>>)
      returns (found: Option<string>)
      requires Valid() && HashOrder(cats, order)
      ensures found == LastMatch(params, Entries(cats, order), Upper(keyword))
    {
      found := FindKeyword(params, cats, order, Upper(keyword));
    }

    /** A keyword that only one record carries finds it, whatever the visiting order. */
    lemma KeywordOfOneRecord(up: string, c: string, n: string, cats: seq<string>, order: map<string, seq<string>>)
      requires Valid() && HashOrder(cats, order)
      requires c in params && n in params[c] && up in params[c][n].keywords
      requires forall c2, n2 :: c2 in params && n2 in params[c2] && up in params[c2][n2].keywords ==> c2 == c && n2 == n
      ensures LastMatch(params, Entries(cats, order), up) == Some(n)
    {
      var es := Entries(cats, order);
      LastMatchSpec(params, es, up);
      var k :| 0 <= k < |es| && es[k].1 == LastMatch(params, es, up).value && up in params[es[k].0][es[k].1].keywords;
    }

    /** `getAllParameters`: every name mapped to its value; a name stored under
        two categories gets the value of the later-visited one. */
    method GetAllParameters(cats: seq<string>, order: map<string, seq<string>>) returns (all: map<string, Value>)
      requires Valid() && HashOrder(cats, order)
      ensures all == Collect(params, Entries(cats, order))
    {
      all := CollectValues(params, cats, order);
    }

    /** A name stored under one category only is mapped to its value, whatever the visiting order. */
    lemma NameOfOneCategory(c: string, n: string, cats: seq<string>, order: map<string, seq<string>>)
      requires Valid() && HashOrder(cats, order)
      requires c in params && n in params[c]
      requires forall c2 :: c2 in params && n in params[c2] ==> c2 == c
      ensures Collect(params, Entries(cats, order))[n] == params[c][n].value
    {
      var es := Entries(cats, order);
      var k :| 0 <= k < |es| && es[k] == (c, n);
      CollectUnique(params, es, k);
    }
  }
}
