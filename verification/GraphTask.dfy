/** The compact `key=value,...` syntax of `--task`: commas separate fields unless they are
    inside a double-quoted span. */
module GraphTask {
  import opened Text

  // ---- splitting -------------------------------------------------------------------

  /** Where a scan is: outside quotes, inside them, or just after a backslash inside them. */
  datatype Quote = Outside | Inside | Escaped

  function After(q: Quote, c: char): Quote {
    match q
    case Outside => if c == '"' then Inside else Outside
    case Inside => if c == '\\' then Escaped else if c == '"' then Outside else Inside
    case Escaped => Inside
  }

  function Scan(q: Quote, s: string): Quote
    decreases |s|
  {
    if s == "" then q else Scan(After(q, s[0]), s[1..])
  }

  /** No comma of `s` is outside quotes, when the scan of `s` starts in `q`. */
  predicate NoBareComma(q: Quote, s: string)
    decreases |s|
  {
    s == "" || (!(q.Outside? && s[0] == ',') && NoBareComma(After(q, s[0]), s[1..]))
  }

  function FieldsFrom(q: Quote, s: string): (fields: seq<string>)
    ensures fields != []
    decreases |s|
  {
    if s == "" then [""]
    else
      var rest := FieldsFrom(After(q, s[0]), s[1..]);
      if q.Outside? && s[0] == ',' then [""] + rest else Glued([s[0]], rest)
  }

  /** `s` put in front of the first field. */
  function Glued(s: string, fields: seq<string>): (r: seq<string>)
    requires fields != []
    ensures r != [] && r[0] == s + fields[0] && r[1..] == fields[1..]
  {
    [s + fields[0]] + fields[1..]
  }

  function Fields(s: string): seq<string> {
    FieldsFrom(Outside, s)
  }

  method SplitTopLevelCommas(value: string) returns (fields: seq<string>)
    ensures fields == Fields(value)
  {
    hide Glued, FieldsFrom;
    fields := [];
    var start := 0;
    var inQuotes, escaped := false, false;
    assert value[0..] == value;
    GlueNothing(Fields(value));
    for i := 0 to |value|
      invariant 0 <= start <= i
      invariant escaped ==> inQuotes
      invariant Fields(value) == fields + Glued(value[start..i], FieldsFrom(QuoteOf(inQuotes, escaped), value[i..]))
    {
      var ch := value[i];
      OneMoreChar(value, start, i, QuoteOf(inQuotes, escaped));
      if inQuotes {
        if escaped {
          escaped := false;
        } else if ch == '\\' {
          escaped := true;
        } else if ch == '"' {
          inQuotes := false;
        }
        continue;
      }
      if ch == '"' {
        inQuotes := true;
      } else if ch == ',' {
        fields := fields + [value[start..i]];
        start := i + 1;
      }
    }
    assert value[|value|..] == "" && value[start..] == value[start..|value|];
    NothingLeft(QuoteOf(inQuotes, escaped));
    GlueToEmpty(value[start..], []);
    assert [""] + [] == [""] && [value[start..]] + [] == [value[start..]];
    fields := fields + [value[start..]];
  }

  lemma GlueNothing(fields: seq<string>)
    requires fields != []
    ensures Glued("", fields) == fields
  {
    assert "" + fields[0] == fields[0];
    assert [fields[0]] + fields[1..] == fields;
  }

  lemma GlueToEmpty(s: string, rest: seq<string>)
    ensures Glued(s, [""] + rest) == [s] + rest
  {
    assert s + "" == s && ([""] + rest)[1..] == rest;
  }

  lemma NothingLeft(q: Quote)
    ensures FieldsFrom(q, "") == [""]
  {
  }

  /** What is still to be split after the next character. */
  lemma OneMoreChar(value: string, start: nat, i: nat, q: Quote)
    requires start <= i < |value|
    ensures Glued(value[start..i], FieldsFrom(q, value[i..])) ==
      if q.Outside? && value[i] == ','
      then [value[start..i]] + Glued(value[i + 1..i + 1], FieldsFrom(Outside, value[i + 1..]))
      else Glued(value[start..i + 1], FieldsFrom(After(q, value[i]), value[i + 1..]))
  {
    var rest := FieldsFrom(After(q, value[i]), value[i + 1..]);
    assert value[i..][1..] == value[i + 1..];
    assert value[start..i + 1] == value[start..i] + [value[i]];
    GlueNothing(rest);
    assert value[i + 1..i + 1] == "";
    if q.Outside? && value[i] == ',' {
      GlueToEmpty(value[start..i], rest);
    } else {
      assert value[start..i] + ([value[i]] + rest[0]) == value[start..i + 1] + rest[0];
    }
  }

  function QuoteOf(inQuotes: bool, escaped: bool): Quote {
    if !inQuotes then Outside else if escaped then Escaped else Inside
  }

  /** A list of fields that a text may be split into: only the last may end inside quotes. */
  predicate Separable(q: Quote, fields: seq<string>)
    requires fields != []
    decreases |fields|
  {
    && NoBareComma(q, fields[0])
    && (|fields| > 1 ==> Scan(q, fields[0]).Outside? && Separable(Outside, fields[1..]))
  }

  /** Splitting loses nothing, and no field holds a comma outside quotes. */
  lemma {:induction false} SplitIsLossless(q: Quote, s: string)
    ensures Join(FieldsFrom(q, s), ',') == s
    ensures Separable(q, FieldsFrom(q, s))
    decreases |s|
  {
    if s != "" {
      var q', rest := After(q, s[0]), FieldsFrom(After(q, s[0]), s[1..]);
      SplitIsLossless(q', s[1..]);
      if q.Outside? && s[0] == ',' {
        assert ([""] + rest)[1..] == rest;
      } else {
        GluedJoins(s[0], rest);
        GluedStaysSeparable(q, s[0], rest);
      }
      assert s == [s[0]] + s[1..];
    }
  }

  lemma GluedJoins(c: char, fields: seq<string>)
    requires fields != []
    ensures Join(Glued([c], fields), ',') == [c] + Join(fields, ',')
  {
  }

  lemma GluedStaysSeparable(q: Quote, c: char, fields: seq<string>)
    requires fields != [] && Separable(After(q, c), fields) && !(q.Outside? && c == ',')
    ensures Separable(q, Glued([c], fields))
  {
    assert ([c] + fields[0])[1..] == fields[0];
  }

  /** It is the only way to split the text that does. */
  lemma {:induction false} SplitIsUnique(q: Quote, fields: seq<string>)
    requires fields != [] && Separable(q, fields)
    ensures FieldsFrom(q, Join(fields, ',')) == fields
    decreases |fields|, |fields[0]|
  {
    var s, first := Join(fields, ','), fields[0];
    if first != "" {
      var shorter := [first[1..]] + fields[1..];
      assert shorter[1..] == fields[1..];
      assert first == [first[0]] + first[1..];
      assert Glued([first[0]], shorter) == fields;
      GluedJoins(first[0], shorter);
      assert s[0] == first[0] && s[1..] == Join(shorter, ',');
      SplitIsUnique(After(q, first[0]), shorter);
    } else if |fields| > 1 {
      SplitIsUnique(Outside, fields[1..]);
      assert s[0] == ',' && s[1..] == Join(fields[1..], ',');
      assert fields == [""] + fields[1..];
    }
  }

  // ---- parsing ---------------------------------------------------------------------

  datatype RunCondition = Always | OnSuccess | OnFailure

  datatype Node = Node(id: string, agent: string, desc: string, dependsOn: seq<string>, runIf: RunCondition)

  datatype Error = NotKeyValue | BadRunIf(other: string) | Missing(key: string)

  /** One layer of surrounding double quotes taken off. */
  function Unquoted(v: string): string {
    match StripPrefix(v, "\"")
    case None => v
    case Some(w) =>
      match StripSuffix(w, "\"")
      case None => v
      case Some(x) => x
  }

  /** A field's key and value, if it has an equals sign. */
  type Pair = Option<(string, string)>

  function PairOf(field: string): Pair {
    match SplitFirst(field, '=')
    case None => None
    case Some((key, v)) => Some((Trim(key), Unquoted(Trim(v))))
  }

  function PairsOf(fields: seq<string>): (pairs: seq<Pair>)
    ensures |pairs| == |fields|
  {
    seq(|fields|, i requires 0 <= i < |fields| => PairOf(fields[i]))
  }

  function MapOf(pairs: seq<Pair>): (r: Result<map<string, string>, Error>)
    ensures r.Err? ==> r.error == NotKeyValue
  {
    if pairs == [] then Ok(map[])
    else
      match MapOf(pairs[..|pairs| - 1])
      case Err(e) => Err(e)
      case Ok(before) =>
        match pairs[|pairs| - 1]
        case None => Err(NotKeyValue)
        case Some((key, v)) => Ok(before[key := v])
  }

  function FieldMap(fields: seq<string>): Result<map<string, string>, Error> {
    MapOf(PairsOf(fields))
  }

  function RunIfOf(name: string): Result<RunCondition, Error> {
    if name == "always" then Ok(Always)
    else if name == "on_success" then Ok(OnSuccess)
    else if name == "on_failure" then Ok(OnFailure)
    else Err(BadRunIf(name))
  }

  function NonEmpty(parts: seq<string>): seq<string> {
    if parts == [] then []
    else if parts[0] == "" then NonEmpty(parts[1..])
    else [parts[0]] + NonEmpty(parts[1..])
  }

  function Get(fields: map<string, string>, key: string, default: string): string {
    if key in fields then fields[key] else default
  }

  function NodeOf(fields: map<string, string>): Result<Node, Error> {
    match RunIfOf(Get(fields, "run_if", "always"))
    case Err(e) => Err(e)
    case Ok(runIf) =>
      if "id" !in fields then Err(Missing("id"))
      else if "agent" !in fields then Err(Missing("agent"))
      else if "desc" !in fields then Err(Missing("desc"))
      else
        var dependsOn := NonEmpty(Split(Get(fields, "depends_on", ""), '|'));
        Ok(Node(fields["id"], fields["agent"], fields["desc"], dependsOn, runIf))
  }

  function Parsed(value: string): Result<Node, Error> {
    match FieldMap(Fields(value))
    case Err(e) => Err(e)
    case Ok(fields) => NodeOf(fields)
  }

  lemma {:induction false} OneBadPairFails(pairs: seq<Pair>, i: nat)
    requires i < |pairs| && pairs[i].None?
    ensures MapOf(pairs) == Err(NotKeyValue)
  {
    if i < |pairs| - 1 {
      OneBadPairFails(pairs[..|pairs| - 1], i);
    }
  }

  /** The last pair with this key has this value. */
  predicate LastWith(pairs: seq<Pair>, key: string, v: string, i: int) {
    && 0 <= i < |pairs| && pairs[i] == Some((key, v))
    && forall j :: i < j < |pairs| ==> !HasKey(pairs[j], key)
  }

  predicate HasKey(pair: Pair, key: string) {
    pair.Some? && pair.value.0 == key
  }

  /** The map has each key's last value. */
  lemma {:induction false} LastValue(pairs: seq<Pair>, key: string) returns (i: int)
    requires MapOf(pairs).Ok?
    ensures if key in MapOf(pairs).value then LastWith(pairs, key, MapOf(pairs).value[key], i)
            else forall j :: 0 <= j < |pairs| ==> !HasKey(pairs[j], key)
  {
    i := |pairs| - 1;
    if pairs != [] && !HasKey(pairs[i], key) {
      var front := pairs[..i];
      i := LastValue(front, key);
    }
  }

  lemma {:induction false} MapOfAllPairs(pairs: seq<Pair>)
    ensures MapOf(pairs).Ok? <==> forall i :: 0 <= i < |pairs| ==> pairs[i].Some?
  {
    if pairs != [] {
      var front := pairs[..|pairs| - 1];
      MapOfAllPairs(front);
      assert forall i :: 0 <= i < |front| ==> front[i] == pairs[i];
    }
  }

  predicate GoodRunIf(name: string) {
    name == "always" || name == "on_success" || name == "on_failure"
  }

  predicate Requires(pairs: seq<Pair>, key: string) {
    exists j :: 0 <= j < |pairs| && HasKey(pairs[j], key)
  }

  lemma PairsHaveEquals(field: string)
    ensures PairOf(field).Some? <==> '=' in field
  {
    hide Trim, Unquoted;
    SplitFirstExactly(field, '=');
  }

  /** Exactly the texts that parse: every field has an equals sign, the required keys are there,
      and the last `run_if`, if any, names a condition. */
  lemma ParsesExactly(value: string)
    ensures var fields, pairs := Fields(value), PairsOf(Fields(value));
      Parsed(value).Ok? <==>
        && (forall i :: 0 <= i < |fields| ==> '=' in fields[i])
        && Requires(pairs, "id") && Requires(pairs, "agent") && Requires(pairs, "desc")
        && (forall name, i :: LastWith(pairs, "run_if", name, i) ==> GoodRunIf(name))
  {
    hide Fields, MapOf, PairOf;
    var fields, pairs := Fields(value), PairsOf(Fields(value));
    MapOfAllPairs(pairs);
    forall i | 0 <= i < |fields| ensures pairs[i].Some? <==> '=' in fields[i] {
      PairsHaveEquals(fields[i]);
    }
    if MapOf(pairs).Ok? {
      var m := MapOf(pairs).value;
      var i := LastValue(pairs, "id");
      i := LastValue(pairs, "agent");
      i := LastValue(pairs, "desc");
      var r := LastValue(pairs, "run_if");
      forall name, i | LastWith(pairs, "run_if", name, i) ensures "run_if" in m && name == m["run_if"] {
        assert HasKey(pairs[i], "run_if");
        assert i == r;
      }
    }
  }

  // ---- what a text parses to -------------------------------------------------------

  function KeyValue(left: string, right: string): string {
    left + ['='] + right
  }

  /** The field is key and value around its first equals sign, spaces around both left off, and one
      layer of quotes around the value if it has both. */
  ghost predicate FieldSays(field: string, key: string, v: string) {
    exists left, right :: field == KeyValue(left, right) && '=' !in left && Trim(left) == key
      && (Trim(right) == "\"" + v + "\"" || (v == Trim(right) && forall x :: v != "\"" + x + "\""))
  }

  /** The last field with this key says `v`. */
  ghost predicate SaysLast(fields: seq<string>, key: string, v: string) {
    exists i: nat :: i < |fields| && FieldSays(fields[i], key, v)
      && forall j, other :: i < j < |fields| ==> !FieldSays(fields[j], key, other)
  }

  ghost predicate SaysNothing(fields: seq<string>, key: string) {
    forall j, v :: 0 <= j < |fields| ==> !FieldSays(fields[j], key, v)
  }

  lemma LayerExactly(t: string, x: string)
    ensures t == "\"" + x + "\"" <==> |t| >= 2 && t[0] == '"' && t[|t| - 1] == '"' && x == t[1..|t| - 1]
  {
    if |t| >= 2 {
      assert t == [t[0]] + t[1..|t| - 1] + [t[|t| - 1]];
    }
  }

  lemma UnquotedInner(t: string)
    ensures Unquoted(t) == if |t| >= 2 && t[0] == '"' && t[|t| - 1] == '"' then t[1..|t| - 1] else t
  {
    BeginsWith(t, '"');
    if t != "" && t[0] == '"' {
      EndsWith(t[1..], '"');
      assert |t| >= 2 ==> t[1..][..|t| - 2] == t[1..|t| - 1];
    }
  }

  lemma BeginsWith(t: string, c: char)
    ensures [c] <= t <==> t != "" && t[0] == c
  {
  }

  lemma EndsWith(t: string, c: char)
    ensures |t| >= 1 ==> (t[|t| - 1..] == [c] <==> t[|t| - 1] == c)
  {
    if |t| >= 1 {
      assert t[|t| - 1..] == [t[|t| - 1]];
    }
  }

  lemma UnquotedExactly(t: string, v: string)
    ensures Unquoted(t) == v <==> t == "\"" + v + "\"" || (v == t && forall x :: t != "\"" + x + "\"")
  {
    hide Unquoted;
    UnquotedInner(t);
    LayerExactly(t, v);
    if |t| >= 2 {
      LayerExactly(t, t[1..|t| - 1]);
    }
    forall x ensures t == "\"" + x + "\"" ==> |t| >= 2 && t[0] == '"' && t[|t| - 1] == '"' {
      LayerExactly(t, x);
    }
  }

  lemma PairSays(field: string, key: string, v: string)
    ensures PairOf(field) == Some((key, v)) <==> FieldSays(field, key, v)
  {
    hide Trim, Unquoted;
    SplitFirstExactly(field, '=');
    if PairOf(field) == Some((key, v)) {
      var (left, right) := SplitFirst(field, '=').value;
      assert field == KeyValue(left, right);
      UnquotedExactly(Trim(right), v);
    }
    if FieldSays(field, key, v) {
      var left, right :| field == KeyValue(left, right) && '=' !in left && Trim(left) == key
        && (Trim(right) == "\"" + v + "\"" || (v == Trim(right) && forall x :: v != "\"" + x + "\""));
      SplitFirstOfJoined(left, '=', right);
      UnquotedExactly(Trim(right), v);
    }
  }

  lemma FieldsHaveKey(fields: seq<string>, key: string)
    ensures forall j :: 0 <= j < |fields| ==>
      (HasKey(PairsOf(fields)[j], key) <==> exists v :: FieldSays(fields[j], key, v))
  {
    hide PairOf, FieldSays;
    forall j | 0 <= j < |fields|
      ensures HasKey(PairsOf(fields)[j], key) <==> exists v :: FieldSays(fields[j], key, v)
    {
      if HasKey(PairOf(fields[j]), key) {
        PairSays(fields[j], key, PairOf(fields[j]).value.1);
      }
      if v :| FieldSays(fields[j], key, v) {
        PairSays(fields[j], key, v);
      }
    }
  }

  /** The field map, once every field has an equals sign, is what the fields say last. */
  lemma MapSays(fields: seq<string>, key: string, v: string)
    requires FieldMap(fields).Ok?
    ensures key !in FieldMap(fields).value <==> SaysNothing(fields, key)
    ensures key in FieldMap(fields).value && FieldMap(fields).value[key] == v <==> SaysLast(fields, key, v)
  {
    hide PairOf, MapOf, FieldSays;
    var pairs, m := PairsOf(fields), FieldMap(fields).value;
    FieldsHaveKey(fields, key);
    var i := LastValue(pairs, key);
    if key in m {
      PairSays(fields[i], key, m[key]);
      assert SaysLast(fields, key, m[key]);
      if SaysLast(fields, key, v) {
        LastIsOne(fields, key, m[key], v);
      }
    }
  }

  lemma LastIsOne(fields: seq<string>, key: string, v: string, other: string)
    requires SaysLast(fields, key, v) && SaysLast(fields, key, other)
    ensures v == other
  {
    hide PairOf, FieldSays;
    var i: nat :| i < |fields| && FieldSays(fields[i], key, v)
      && forall j, x :: i < j < |fields| ==> !FieldSays(fields[j], key, x);
    var k: nat :| k < |fields| && FieldSays(fields[k], key, other)
      && forall j, x :: k < j < |fields| ==> !FieldSays(fields[j], key, x);
    assert i == k;
    PairSays(fields[i], key, v);
    PairSays(fields[i], key, other);
  }

  ghost predicate RunSays(fields: seq<string>, c: RunCondition) {
    || (c == Always && (SaysNothing(fields, "run_if") || SaysLast(fields, "run_if", "always")))
    || (c == OnSuccess && SaysLast(fields, "run_if", "on_success"))
    || (c == OnFailure && SaysLast(fields, "run_if", "on_failure"))
  }

  ghost predicate DependsSay(fields: seq<string>, deps: seq<string>) {
    || (SaysNothing(fields, "depends_on") && deps == [])
    || (exists v :: SaysLast(fields, "depends_on", v) && deps == NonEmpty(Split(v, '|')))
  }

  /** Exactly the node that a text describes: every field has an equals sign, and what the fields
      say last is the node's id, agent and description, its dependencies, empty ones left out, and
      its condition; without a field for them there are no dependencies and it always runs. */
  lemma ParsesTo(value: string, n: Node)
    ensures var fields := Fields(value);
      Parsed(value) == Ok(n) <==>
        && (forall i :: 0 <= i < |fields| ==> '=' in fields[i])
        && SaysLast(fields, "id", n.id) && SaysLast(fields, "agent", n.agent) && SaysLast(fields, "desc", n.desc)
        && DependsSay(fields, n.dependsOn) && RunSays(fields, n.runIf)
  {
    hide Fields, MapOf, PairOf, SaysLast, SaysNothing, Split;
    var fields := Fields(value);
    EqualsEverywhere(fields);
    if FieldMap(fields).Ok? {
      var m := FieldMap(fields).value;
      MapSays(fields, "id", n.id);
      MapSays(fields, "agent", n.agent);
      MapSays(fields, "desc", n.desc);
      MapSays(fields, "run_if", "always");
      MapSays(fields, "run_if", "on_success");
      MapSays(fields, "run_if", "on_failure");
      forall v ensures SaysLast(fields, "depends_on", v) <==> "depends_on" in m && m["depends_on"] == v {
        MapSays(fields, "depends_on", v);
      }
      MapSays(fields, "depends_on", "");
      NothingDependsOnEmpty();
    }
  }

  lemma NothingDependsOnEmpty()
    ensures NonEmpty(Split("", '|')) == []
  {
    assert NonEmpty([""]) == NonEmpty([""][1..]) == [];
  }

  lemma EqualsEverywhere(fields: seq<string>)
    ensures FieldMap(fields).Ok? <==> forall i :: 0 <= i < |fields| ==> '=' in fields[i]
    ensures FieldMap(fields).Err? ==> FieldMap(fields) == Err(NotKeyValue)
  {
    hide MapOf, PairOf;
    MapOfAllPairs(PairsOf(fields));
    forall i | 0 <= i < |fields| ensures PairsOf(fields)[i].Some? <==> '=' in fields[i] {
      PairsHaveEquals(fields[i]);
    }
  }

  /** ... and exactly the first thing that is wrong, in this order: a field without an equals sign,
      a condition that is none of the three, no id, no agent, no description. */
  lemma FailsWith(value: string, e: Error)
    ensures var fields := Fields(value);
      var readable := forall i :: 0 <= i < |fields| ==> '=' in fields[i];
      var runnable := exists c :: RunSays(fields, c);
      Parsed(value) == Err(e) <==>
        if !readable then e == NotKeyValue
        else if !runnable then e.BadRunIf? && SaysLast(fields, "run_if", e.other)
        else if SaysNothing(fields, "id") then e == Missing("id")
        else if SaysNothing(fields, "agent") then e == Missing("agent")
        else SaysNothing(fields, "desc") && e == Missing("desc")
  {
    hide Fields, MapOf, PairOf, SaysLast, SaysNothing, Split, NonEmpty;
    var fields := Fields(value);
    EqualsEverywhere(fields);
    if FieldMap(fields).Ok? {
      var m := FieldMap(fields).value;
      MapSays(fields, "id", "");
      MapSays(fields, "agent", "");
      MapSays(fields, "desc", "");
      MapSays(fields, "run_if", "always");
      MapSays(fields, "run_if", "on_success");
      MapSays(fields, "run_if", "on_failure");
      MapSays(fields, "run_if", if e.BadRunIf? then e.other else "");
      assert RunIfOf(Get(m, "run_if", "always")).Ok? <==>
        RunSays(fields, Always) || RunSays(fields, OnSuccess) || RunSays(fields, OnFailure);
    }
  }

  method ParseGraphTask(value: string) returns (r: Result<Node, Error>)
    ensures r == Parsed(value)
  {
    hide PairOf, MapOf;
    var fields: map<string, string> := map[];
    var parts := SplitTopLevelCommas(value);
    ghost var pairs := PairsOf(parts);
    NoPairs();
    for i := 0 to |parts|
      invariant MapOf(pairs[..i]) == Ok(fields)
    {
      OneMorePair(pairs, i);
      match PairOf(parts[i]) {
        case None =>
          OneBadPairFails(pairs, i);
          return Err(NotKeyValue);
        case Some((key, v)) =>
          fields := fields[key := v];
      }
    }
    assert pairs[..|parts|] == pairs;
    r := NodeOf(fields);
  }

  lemma OneMorePair(pairs: seq<Pair>, i: nat)
    requires i < |pairs| && MapOf(pairs[..i]).Ok?
    ensures MapOf(pairs[..i + 1]) ==
      match pairs[i]
      case None => Err(NotKeyValue)
      case Some((key, v)) => Ok(MapOf(pairs[..i]).value[key := v])
  {
    assert pairs[..i + 1][..i] == pairs[..i];
  }

  lemma NoPairs()
    ensures MapOf([]) == Ok(map[])
  {
  }

  // ---- printing, and the round trip ------------------------------------------------

  function RunIfName(c: RunCondition): string {
    match c
    case Always => "always"
    case OnSuccess => "on_success"
    case OnFailure => "on_failure"
  }

  function DependsField(deps: seq<string>): string {
    if deps == [] then "" else Join(deps, '|')
  }

  function Quoted(desc: string): string {
    "\"" + desc + "\""
  }

  function Field(key: string, v: string): string {
    key + "=" + v
  }

  function PrintedFields(n: Node): seq<string> {
    [Field("id", n.id), Field("agent", n.agent), Field("desc", Quoted(n.desc)),
     Field("depends_on", DependsField(n.dependsOn)), Field("run_if", RunIfName(n.runIf))]
  }

  function Printed(n: Node): string {
    Join(PrintedFields(n), ',')
  }

  predicate Plain(v: string) {
    ',' !in v && '"' !in v && Trimmed(v)
  }

  /** In quotes, the description closes them and shows no comma outside: it holds no quote but
      escaped ones, or only closed spans of them, and no backslash eats the closing quote. */
  predicate Sealed(desc: string) {
    NoBareComma(Outside, Quoted(desc)) && Scan(Outside, Quoted(desc)).Outside?
  }

  /** Ids, agents and dependencies that print as they are. */
  predicate PlainParts(n: Node) {
    && Plain(n.id) && Plain(n.agent)
    && forall d <- n.dependsOn :: Plain(d) && d != "" && '|' !in d
  }

  predicate Printable(n: Node) {
    PlainParts(n) && Sealed(n.desc)
  }

  lemma {:induction false} ScanAdds(q: Quote, a: string, b: string)
    ensures Scan(q, a + b) == Scan(Scan(q, a), b)
    ensures NoBareComma(q, a + b) <==> NoBareComma(q, a) && NoBareComma(Scan(q, a), b)
    decreases |a|
  {
    if a == "" {
      assert a + b == b;
    } else {
      assert (a + b)[1..] == a[1..] + b;
      ScanAdds(After(q, a[0]), a[1..], b);
    }
  }

  lemma {:induction false} PlainScan(s: string)
    requires ',' !in s && '"' !in s
    ensures NoBareComma(Outside, s) && Scan(Outside, s) == Outside
  {
    if s != "" {
      PlainScan(s[1..]);
    }
  }

  /** Free of `"` and `\`, a description is sealed, commas and outer spaces included. */
  lemma SimpleDescriptionIsSealed(desc: string)
    requires '"' !in desc && '\\' !in desc
    ensures Sealed(desc)
  {
    StaysInside(desc);
    ScanAdds(Outside, "\"" + desc, "\"");
    ScanAdds(Outside, "\"", desc);
  }

  lemma {:induction false} StaysInside(s: string)
    requires '"' !in s && '\\' !in s
    ensures NoBareComma(Inside, s) && Scan(Inside, s) == Inside
  {
    if s != "" {
      StaysInside(s[1..]);
    }
  }

  predicate IsOneField(s: string) {
    NoBareComma(Outside, s) && Scan(Outside, s).Outside?
  }

  lemma FieldIsOne(key: string, v: string)
    requires ',' !in key && '"' !in key && IsOneField(v)
    ensures IsOneField(Field(key, v))
  {
    PlainScan(key + "=");
    ScanAdds(Outside, key + "=", v);
  }

  lemma {:induction false} JoinedPlain(parts: seq<string>)
    requires parts != [] && forall p <- parts :: Plain(p) && p != ""
    ensures var s := Join(parts, '|'); Plain(s) && s != ""
  {
    assert parts[0] in parts;
    if |parts| > 1 {
      JoinedPlain(parts[1..]);
      var s, rest := Join(parts, '|'), Join(parts[1..], '|');
      assert s[0] == parts[0][0] && s[|s| - 1] == rest[|rest| - 1];
    }
  }

  lemma PrintedFieldsAreFields(n: Node)
    requires Printable(n)
    ensures Fields(Printed(n)) == PrintedFields(n)
  {
    hide Field, Join, Quoted, DependsField;
    PlainValues(n);
    FieldIsOne("id", n.id);
    FieldIsOne("agent", n.agent);
    FieldIsOne("desc", Quoted(n.desc));
    FieldIsOne("depends_on", DependsField(n.dependsOn));
    FieldIsOne("run_if", RunIfName(n.runIf));
    AllSeparable(PrintedFields(n));
    SplitIsUnique(Outside, PrintedFields(n));
  }

  lemma PlainValues(n: Node)
    requires Printable(n)
    ensures IsOneField(n.id) && IsOneField(n.agent) && IsOneField(Quoted(n.desc))
    ensures IsOneField(DependsField(n.dependsOn)) && IsOneField(RunIfName(n.runIf))
    ensures Plain(DependsField(n.dependsOn)) && Plain(RunIfName(n.runIf))
  {
    PlainScan(n.id);
    PlainScan(n.agent);
    if n.dependsOn != [] {
      JoinedPlain(n.dependsOn);
    }
    PlainScan(DependsField(n.dependsOn));
    PlainScan(RunIfName(n.runIf));
  }

  lemma {:induction false} AllSeparable(fields: seq<string>)
    requires fields != [] && forall f <- fields :: IsOneField(f)
    ensures Separable(Outside, fields)
  {
    assert fields[0] in fields;
    if |fields| > 1 {
      AllSeparable(fields[1..]);
    }
  }

  lemma FieldPair(key: string, v: string)
    requires '=' !in key && Trimmed(key) && Trimmed(v)
    ensures PairOf(Field(key, v)) == Some((key, Unquoted(v)))
  {
    SplitFirstOfJoined(key, '=', v);
    TrimFixesTrimmed(key);
    TrimFixesTrimmed(v);
  }

  lemma PlainIsUnquoted(v: string)
    requires Plain(v)
    ensures Unquoted(v) == v
  {
  }

  lemma QuotedUnquotes(desc: string)
    ensures Unquoted(Quoted(desc)) == desc && Trimmed(Quoted(desc))
  {
    assert Quoted(desc)[1..] == desc + "\"";
    assert (desc + "\"")[..|desc|] == desc;
  }

  lemma PrintedFieldsRead(n: Node)
    requires Printable(n)
    ensures FieldMap(PrintedFields(n)) == Ok(
      map["id" := n.id, "agent" := n.agent, "desc" := n.desc,
          "depends_on" := DependsField(n.dependsOn), "run_if" := RunIfName(n.runIf)])
  {
    hide Field, Quoted, DependsField, PairOf, MapOf, Unquoted, RunIfName;
    PlainValues(n);
    QuotedUnquotes(n.desc);
    PlainIsUnquoted(n.id);
    PlainIsUnquoted(n.agent);
    PlainIsUnquoted(DependsField(n.dependsOn));
    PlainIsUnquoted(RunIfName(n.runIf));
    FieldPair("id", n.id);
    FieldPair("agent", n.agent);
    FieldPair("desc", Quoted(n.desc));
    FieldPair("depends_on", DependsField(n.dependsOn));
    FieldPair("run_if", RunIfName(n.runIf));
    var pairs := [Some(("id", n.id)), Some(("agent", n.agent)), Some(("desc", n.desc)),
                  Some(("depends_on", DependsField(n.dependsOn))), Some(("run_if", RunIfName(n.runIf)))];
    assert PairsOf(PrintedFields(n)) == pairs;
    FivePairs(pairs);
  }

  lemma FivePairs(pairs: seq<Pair>)
    requires |pairs| == 5 && forall i :: 0 <= i < 5 ==> pairs[i].Some?
    ensures MapOf(pairs) == Ok(map[][pairs[0].value.0 := pairs[0].value.1][pairs[1].value.0 := pairs[1].value.1]
      [pairs[2].value.0 := pairs[2].value.1][pairs[3].value.0 := pairs[3].value.1]
      [pairs[4].value.0 := pairs[4].value.1])
  {
    hide MapOf;
    NoPairs();
    assert pairs[..0] == [] && pairs[..5] == pairs;
    OneMorePair(pairs, 0);
    OneMorePair(pairs, 1);
    OneMorePair(pairs, 2);
    OneMorePair(pairs, 3);
    OneMorePair(pairs, 4);
  }

  lemma {:induction false} NonEmptyKeeps(parts: seq<string>)
    requires "" !in parts
    ensures NonEmpty(parts) == parts
  {
    if parts != [] {
      NonEmptyKeeps(parts[1..]);
    }
  }

  lemma DependenciesReadBack(deps: seq<string>)
    requires forall d <- deps :: d != "" && '|' !in d
    ensures NonEmpty(Split(DependsField(deps), '|')) == deps
  {
    if deps == [] {
      assert Split("", '|') == [""];
      assert NonEmpty([""]) == NonEmpty([""][1..]) == [];
    } else {
      SplitOfJoined(deps, '|');
      NonEmptyKeeps(deps);
    }
  }

  /** Parsing the printed form of a node returns the node, for ids, agents and dependencies free
      of `,`, `"` and outer spaces, dependencies also non-empty and free of `|`, and a sealed
      description. */
  lemma ParsePrinted(n: Node)
    requires Printable(n)
    ensures Parsed(Printed(n)) == Ok(n)
  {
    hide Fields, FieldMap, Printed, PrintedFields, DependsField;
    PrintedFieldsAreFields(n);
    PrintedFieldsRead(n);
    DependenciesReadBack(n.dependsOn);
  }

  // ---- a description that ends in a backslash --------------------------------------

  lemma {:induction false} NeverCloses(q: Quote, s: string)
    requires !q.Outside? && '"' !in s
    ensures NoBareComma(q, s) && !Scan(q, s).Outside?
    decreases |s|
  {
    if s != "" {
      NeverCloses(After(q, s[0]), s[1..]);
    }
  }

  function Tail(n: Node): string {
    "," + Field("depends_on", DependsField(n.dependsOn)) + "," + Field("run_if", RunIfName(n.runIf))
  }

  /** The quoted text is never unescaped, so a last backslash keeps the span open: the dependencies
      and the condition are read as part of the description's field. */
  lemma BackslashSwallowsTheRest(n: Node, d: string)
    requires Printable(n.(desc := d)) && '"' !in d && '\\' !in d && n.desc == d + "\\"
    ensures Fields(Printed(n)) == [Field("id", n.id), Field("agent", n.agent), Field("desc", Quoted(n.desc)) + Tail(n)]
  {
    hide Join, DependsField, Quoted, Field, Fields;
    PlainValues(n.(desc := d));
    FieldIsOne("id", n.id);
    FieldIsOne("agent", n.agent);
    var f := PrintedFields(n);
    var merged := [f[0], f[1], f[2] + Tail(n)];
    NoQuoteInTail(n);
    StaysOpen(d, Tail(n));
    assert merged[1..] == [f[1], f[2] + Tail(n)] && merged[1..][1..] == [f[2] + Tail(n)];
    assert Separable(Outside, merged[1..][1..]) && Separable(Outside, merged[1..]);
    SplitIsUnique(Outside, merged);
    JoinsMerged(f, Tail(n));
    assert Fields(Join(merged, ',')) == FieldsFrom(Outside, Join(merged, ',')) by {
      FieldsAreFromOutside(Join(merged, ','));
    }
  }

  lemma FieldsAreFromOutside(s: string)
    ensures Fields(s) == FieldsFrom(Outside, s)
  {
  }

  lemma NoQuoteInTail(n: Node)
    requires Plain(DependsField(n.dependsOn))
    ensures '"' !in Tail(n)
  {
    hide DependsField, Trimmed;
  }

  lemma StaysOpen(d: string, tail: string)
    requires '"' !in d && '\\' !in d && '"' !in tail
    ensures NoBareComma(Outside, Field("desc", Quoted(d + "\\")) + tail)
  {
    hide NoBareComma, Scan;
    var lead, close := "desc=\"", "\\\"";
    assert Field("desc", Quoted(d + "\\")) + tail == lead + (d + (close + tail));
    LeadOpens();
    StaysInside(d);
    NeverCloses(Inside, tail);
    ScanAdds(Inside, close, tail);
    ScanAdds(Inside, d, close + tail);
    ScanAdds(Outside, lead, d + (close + tail));
  }

  lemma LeadOpens()
    ensures NoBareComma(Outside, "desc=\"") && Scan(Outside, "desc=\"") == Inside
    ensures NoBareComma(Inside, "\\\"") && Scan(Inside, "\\\"") == Inside
  {
    PlainScan("desc=");
    ScanAdds(Outside, "desc=", "\"");
    assert "desc=" + "\"" == "desc=\"";
  }

  lemma JoinsMerged(f: seq<string>, tail: string)
    requires |f| == 5 && tail == "," + f[3] + "," + f[4]
    ensures Join(f, ',') == Join([f[0], f[1], f[2] + tail], ',')
  {
    var merged := [f[0], f[1], f[2] + tail];
    assert merged[1..] == [f[1], f[2] + tail] && merged[1..][1..] == [f[2] + tail];
    var a, b, c, d := f[1..], f[2..], f[3..], f[4..];
    assert a[1..] == b && b[1..] == c && c[1..] == d && d == [f[4]];
    assert Join(c, ',') == f[3] + [','] + f[4];
    assert Join(b, ',') == f[2] + [','] + Join(c, ',') == f[2] + tail;
    assert Join(a, ',') == Join(merged[1..], ',');
  }
}
