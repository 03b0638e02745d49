/** When a printed `--task` node parses back to itself: exactly when its description is sealed. */
module GraphRoundTrip {
  import opened Text
  import opened GraphTask

  // ---- splitting a text in two parts -----------------------------------------------

  /** The last field of `a` goes on in the first of `b`. */
  function Spliced(a: seq<string>, b: seq<string>): seq<string>
    requires a != [] && b != []
  {
    a[..|a| - 1] + [a[|a| - 1] + b[0]] + b[1..]
  }

  lemma {:induction false} FieldsAdd(q: Quote, a: string, b: string)
    ensures FieldsFrom(q, a + b) == Spliced(FieldsFrom(q, a), FieldsFrom(Scan(q, a), b))
    decreases |a|
  {
    hide Spliced, Glued;
    var rest := FieldsFrom(Scan(q, a), b);
    if a == "" {
      assert a + b == b;
      SpliceNothing(rest);
    } else {
      assert (a + b)[1..] == a[1..] + b && (a + b)[0] == a[0];
      var q' := After(q, a[0]);
      FieldsAdd(q', a[1..], b);
      SpliceConsed(FieldsFrom(q', a[1..]), rest);
      SpliceGlued(a[0], FieldsFrom(q', a[1..]), rest);
    }
  }

  lemma SpliceNothing(b: seq<string>)
    requires b != []
    ensures Spliced([""], b) == b
  {
    assert "" + b[0] == b[0];
  }

  lemma SpliceConsed(a: seq<string>, b: seq<string>)
    requires a != [] && b != []
    ensures Spliced([""] + a, b) == [""] + Spliced(a, b)
  {
    assert ([""] + a)[..|a|] == [""] + a[..|a| - 1];
  }

  lemma SpliceGlued(c: char, a: seq<string>, b: seq<string>)
    requires a != [] && b != []
    ensures Spliced(Glued([c], a), b) == Glued([c], Spliced(a, b))
  {
    if |a| == 1 {
      assert [c] + a[0] + b[0] == [c] + (a[0] + b[0]);
    }
    assert Spliced(Glued([c], a), b)[1..] == Spliced(a, b)[1..];
  }

  lemma OpenFieldSwallows(q: Quote, s: string)
    requires !q.Outside? && '"' !in s
    ensures FieldsFrom(q, s) == [s]
  {
    NeverCloses(q, s);
    SplitIsUnique(q, [s]);
  }

  lemma TailFields(n: Node)
    requires PlainParts(n)
    ensures FieldsFrom(Outside, Tail(n)) == ["", PrintedFields(n)[3], PrintedFields(n)[4]]
  {
    hide DependsField, RunIfName, Field, FieldsFrom;
    var plain := n.(desc := "");
    SimpleDescriptionIsSealed("");
    PlainValues(plain);
    FieldIsOne("depends_on", DependsField(n.dependsOn));
    FieldIsOne("run_if", RunIfName(n.runIf));
    var f := PrintedFields(n);
    var tail := ["", f[3], f[4]];
    AllSeparable(tail);
    SplitIsUnique(Outside, tail);
    assert tail[1..] == [f[3], f[4]] && tail[1..][1..] == [f[4]];
    assert Join(tail[1..], ',') == f[3] + "," + f[4];
    assert Join(tail, ',') == Tail(n);
  }

  /** The first two fields stand for themselves; the rest is split as a text of its own. */
  lemma PrintedSplits(n: Node)
    requires PlainParts(n)
    ensures var f := PrintedFields(n);
      Fields(Printed(n)) == [f[0], f[1]] + FieldsFrom(Outside, f[2] + Tail(n))
  {
    hide DependsField, RunIfName, Field, FieldsFrom;
    var f, rest := PrintedFields(n), FieldsFrom(Outside, PrintedFields(n)[2] + Tail(n));
    PlainScan(n.id);
    PlainScan(n.agent);
    FieldIsOne("id", n.id);
    FieldIsOne("agent", n.agent);
    SplitIsLossless(Outside, f[2] + Tail(n));
    var all := [f[0]] + ([f[1]] + rest);
    assert all[1..] == [f[1]] + rest && all[1..][1..] == rest;
    SplitIsUnique(Outside, all);
    FieldsAreFromOutside(Printed(n));
    JoinsMerged(f, Tail(n));
    var merged := [f[0], f[1], f[2] + Tail(n)];
    assert merged[1..] == [f[1], f[2] + Tail(n)] && merged[1..][1..] == [f[2] + Tail(n)];
    assert Join(all[1..], ',') == Join(merged[1..], ',');
    assert all == [f[0], f[1]] + rest;
  }

  // ---- pieces of a joined text -----------------------------------------------------

  lemma {:induction false} PieceFits(fields: seq<string>, i: nat)
    requires i < |fields|
    ensures |fields[i]| <= |Join(fields, ',')|
  {
    if i > 0 {
      PieceFits(fields[1..], i - 1);
    }
  }

  lemma {:induction false} LastPieceEnds(fields: seq<string>) returns (p: string)
    requires |fields| > 1
    ensures Join(fields, ',') == p + "," + fields[|fields| - 1]
  {
    var rest := fields[1..];
    if |rest| == 1 {
      p := fields[0];
    } else {
      p := LastPieceEnds(rest);
      p := fields[0] + "," + p;
    }
  }

  /** What a description field of this value looks like. */
  lemma DescField(field: string, v: string) returns (key: string, rest: string)
    requires PairOf(field) == Some(("desc", v))
    ensures field == key + "=" + rest && '=' !in key
    ensures Trim(key) == "desc" && v == Unquoted(Trim(rest)) && |v| + 5 <= |field|
  {
    SplitFirstExactly(field, '=');
    key, rest := SplitFirst(field, '=').value.0, SplitFirst(field, '=').value.1;
    assert |Trim(rest)| <= |rest| && |Trim(key)| <= |key|;
  }

  lemma UntouchedIsWhole(s: string)
    requires |Unquoted(Trim(s))| == |s|
    ensures Unquoted(Trim(s)) == s
  {
    TrimStartExactly(s);
    TrimEndExactly(TrimStart(s));
  }

  lemma QuoteIsNoComma(d: string)
    ensures "\"" + d != d + ","
  {
    assert multiset("\"" + d)[','] == multiset(d)[','];
    assert multiset(d + ",")[','] == multiset(d)[','] + 1;
  }

  /** A piece that ends at a comma of the description is not read as the description. */
  lemma FirstPieceDiffers(d: string, more: string)
    ensures PairOf("desc=\"" + d) != Some(("desc", d + "," + more))
  {
    var v := "\"" + d;
    assert "desc=\"" + d == "desc" + ['='] + v;
    SplitFirstOfJoined("desc", '=', v);
    QuoteIsNoComma(d);
    assert |Unquoted(Trim(v))| <= |Trim(v)| <= |v|;
    if |Unquoted(Trim(v))| == |v| {
      UntouchedIsWhole(v);
    }
    assert more != "" ==> |d + "," + more| > |v|;
    assert more == "" ==> d + "," + more == d + ",";
  }

  /** The first piece opens the quotes, and what follows it closes them. */
  lemma FirstPieceOpens(desc: string, first: string, j: string) returns (d: string, more: string)
    requires Field("desc", Quoted(desc)) == first + "," + j
    ensures first == "desc=\"" + d && desc == d + "," + more && j == more + "\""
  {
    var q := Field("desc", Quoted(desc));
    assert q[|first|] == ',' && q[..6] == "desc=\"" && q[6..] == desc + "\"" && q[|q| - 1] == '"';
    assert forall i :: 0 <= i < 6 ==> q[i] == "desc=\""[i] != ',';
    assert |first| >= 6;
    d := first[6..];
    assert first[..6] == q[..6];
    assert desc + "\"" == d + "," + j;
    assert |q| - 1 != |first|;
    more := j[..|j| - 1];
    assert j == more + [j[|j| - 1]] && j[|j| - 1] == q[|q| - 1];
    assert (desc + "\"")[..|desc|] == (d + "," + more + "\"")[..|desc|];
  }

  /** No piece of a quoted description that was split is read as that description. */
  lemma PiecesDiffer(desc: string, fields: seq<string>, i: nat)
    requires |fields| > 1 && Join(fields, ',') == Field("desc", Quoted(desc)) && i < |fields|
    ensures PairOf(fields[i]) != Some(("desc", desc))
  {
    hide PairOf, Field, Quoted;
    var j := Join(fields[1..], ',');
    var d, more := FirstPieceOpens(desc, fields[0], j);
    FirstPieceDiffers(d, more);
    if i > 0 {
      PieceFits(fields[1..], i - 1);
      if PairOf(fields[i]) == Some(("desc", desc)) {
        var _, _ := DescField(fields[i], desc);
      }
    }
  }

  /** The whole description's field, run on into the tail, is read as more than the description. */
  lemma WholeDiffers(desc: string, tail: string)
    requires tail != "" && !IsSpace(tail[|tail| - 1])
    ensures PairOf(Field("desc", Quoted(desc)) + tail) != Some(("desc", desc))
  {
    hide Unquoted;
    var v := Quoted(desc) + tail;
    assert Field("desc", Quoted(desc)) + tail == "desc" + ['='] + v;
    SplitFirstOfJoined("desc", '=', v);
    TrimFixesTrimmed(v);
    UnquotedLength(v);
  }

  lemma UnquotedLength(v: string)
    ensures |v| - 2 <= |Unquoted(v)| <= |v|
  {
  }

  /** From `p` on, `s` shows `v`, or as much of it as there is room for. */
  predicate ShowsAt(s: string, p: nat, v: string) {
    p < |s| && (v <= s[p..] || s[p..] <= v)
  }

  /** If `d` followed by `w` is `u` followed by `d`, what shows in both shows again in `w`. */
  lemma {:induction false} ShowsAgain(d: string, u: string, w: string, p: nat, v: string) returns (k: nat)
    requires d + w == u + d && u != "" && ShowsAt(d + w, p, v)
    ensures ShowsAt(w, k, v)
    decreases |d| + |w| - p
  {
    if p >= |d| {
      k := p - |d|;
      assert (d + w)[p..] == w[k..];
    } else {
      assert |u| == |w|;
      assert (u + d)[p + |u|..] == d[p..];
      assert (d + w)[p..] == d[p..] + w;
      k := ShowsAgain(d, u, w, p + |u|, v);
    }
  }

  /** After a comma of the tail stands `depends_on` or `run_if`. */
  lemma TailCommas(n: Node, i: nat)
    requires PlainParts(n) && i < |Tail(n)| + 1 && ("\"" + Tail(n))[i] == ','
    ensures var w := "\"" + Tail(n);
      i + 3 < |w| && (w[i + 1] == 'd' || w[i + 1] == 'r') && (w[i + 1] == 'd' ==> w[i + 3] == 'p')
  {
    hide DependsField, RunIfName, Tail, PlainParts, Plain;
    var w, deps, name := "\"" + Tail(n), DependsField(n.dependsOn), RunIfName(n.runIf);
    PlainTail(n);
    TailText(n);
    TwoCommas(deps, name, i);
    assert w[..5] == "\",dep" && w[13 + |deps|..17 + |deps|] == ",run";
  }

  lemma TailText(n: Node)
    ensures "\"" + Tail(n) == "\",depends_on=" + DependsField(n.dependsOn) + ",run_if=" + RunIfName(n.runIf)
  {
    hide DependsField, RunIfName;
  }

  lemma PlainTail(n: Node)
    requires PlainParts(n)
    ensures Plain(DependsField(n.dependsOn)) && Plain(RunIfName(n.runIf))
    ensures ',' !in DependsField(n.dependsOn) && ',' !in RunIfName(n.runIf)
  {
    SimpleDescriptionIsSealed("");
    PlainValues(n.(desc := ""));
  }

  lemma CommaInFront(a: string, b: string, i: nat)
    requires ',' !in b && i < |a + b| && (a + b)[i] == ','
    ensures i < |a| && a[i] == ','
  {
    assert forall j :: |a| <= j < |a + b| ==> (a + b)[j] == b[j - |a|];
  }

  lemma TwoCommas(deps: string, name: string, i: nat)
    requires ',' !in deps && ',' !in name
    requires var w := "\",depends_on=" + deps + ",run_if=" + name; i < |w| && w[i] == ','
    ensures i == 1 || i == 13 + |deps|
  {
    var first, second := "\",depends_on=", ",run_if=";
    CommaInFront(first + deps + second, name, i);
    if i < |first + deps| {
      CommaInFront(first, deps, i);
    } else {
      assert (first + deps + second)[i] == second[i - |first + deps|];
    }
  }

  lemma KeyBegins(key: string)
    requires Trim(key) == "desc"
    ensures |key| >= 4 && (IsSpace(key[0]) || (key[0] == 'd' && key[2] == 's'))
  {
    var t := TrimStart(key);
    TrimStartExactly(key);
    TrimEndExactly(t);
    assert t[..4] == "desc";
  }

  /** Its last character is neither space nor quote, so only space in front is taken off. */
  lemma OnlyFrontTrimmed(rest: string) returns (front: string)
    requires rest != "" && !IsSpace(rest[|rest| - 1]) && rest[|rest| - 1] != '"'
    ensures rest == front + Unquoted(Trim(rest))
  {
    var t := TrimStart(rest);
    TrimStartExactly(rest);
    front := rest[..|rest| - |t|];
    assert t != "" && t[|t| - 1] == rest[|rest| - 1];
    assert TrimEnd(t) == t;
  }

  lemma TailEnds(n: Node)
    ensures var t := Tail(n); t != "" && !IsSpace(t[|t| - 1]) && t[|t| - 1] != '"' && t[|t| - 1] != '=' && '=' in t
  {
    hide DependsField;
    assert Tail(n)[|Tail(n)| - 1] == RunIfName(n.runIf)[|RunIfName(n.runIf)| - 1];
    assert Tail(n)[11] == '=';
  }

  /** The last piece, run on into the tail, is not read as the description either: the text would
      overlap itself, and a comma before a key `desc` would show again in the tail. */
  lemma LastDiffers(n: Node, p: string, g: string)
    requires PlainParts(n) && n.desc + "\"" == p + "," + g
    ensures PairOf(g + Tail(n)) != Some(("desc", n.desc))
  {
    hide PairOf, Tail, PlainParts, Unquoted, Trim;
    var f := g + Tail(n);
    if PairOf(f) == Some(("desc", n.desc)) {
      var key, rest := DescField(f, n.desc);
      TailEnds(n);
      RestEnds(g, Tail(n), key, rest);
      var front := OnlyFrontTrimmed(rest);
      Overlap(n, p, g, key, front);
    }
  }

  /** The first equals sign of a field comes before the last character. */
  lemma RestEnds(g: string, tail: string, key: string, rest: string)
    requires g + tail == key + "=" + rest && '=' !in key && tail != "" && '=' in tail && tail[|tail| - 1] != '='
    ensures rest != "" && rest[|rest| - 1] == tail[|tail| - 1]
  {
    var f := g + tail;
    assert f[|f| - 1] == tail[|tail| - 1];
    assert f[|f| - 1] == (if rest == "" then '=' else rest[|rest| - 1]);
  }

  lemma Overlap(n: Node, p: string, g: string, key: string, front: string)
    requires PlainParts(n) && Trim(key) == "desc" && n.desc + "\"" == p + "," + g
    ensures g + Tail(n) != key + "=" + front + n.desc
  {
    hide PlainParts, Tail, Trim;
    KeyBegins(key);
    if g + Tail(n) == key + "=" + (front + n.desc) {
      var w, u := "\"" + Tail(n), p + "," + key + "=" + front;
      assert n.desc + w == n.desc + "\"" + Tail(n) == p + "," + (g + Tail(n)) == u + n.desc;
      var v := "," + key[..3];
      assert u[|p|..|p| + 4] == v;
      assert (u + n.desc)[|p|..][..4] == v;
      var k := ShowsAgain(n.desc, u, w, |p|, v);
      NoKeyInTail(n, v, k);
    }
  }

  lemma NoKeyInTail(n: Node, v: string, k: nat)
    requires PlainParts(n) && |v| == 4 && v[0] == ',' && (IsSpace(v[1]) || (v[1] == 'd' && v[3] == 's'))
    ensures !ShowsAt("\"" + Tail(n), k, v)
  {
    hide PlainParts, Tail;
    var w := "\"" + Tail(n);
    if k < |w| && w[k] == ',' {
      TailCommas(n, k);
      assert w[k..][0] == w[k] && w[k..][1] == w[k + 1] && w[k..][3] == w[k + 3];
    } else if k < |w| {
      assert w[k..][0] == w[k];
    }
  }

  // ---- the round trip, both ways ---------------------------------------------------

  /** If the description is not sealed, nothing that its printed form is split into is read as it. */
  lemma UnsealedIsLost(n: Node, i: nat)
    requires PlainParts(n) && !Sealed(n.desc)
    requires i < |FieldsFrom(Outside, Field("desc", Quoted(n.desc)) + Tail(n))|
    ensures PairOf(FieldsFrom(Outside, Field("desc", Quoted(n.desc)) + Tail(n))[i]) != Some(("desc", n.desc))
  {
    hide PairOf, FieldsFrom, Tail, PlainParts, Sealed, Quoted;
    var q, tail := Field("desc", Quoted(n.desc)), Tail(n);
    var f := FieldsFrom(Outside, q);
    FieldsAdd(Outside, q, tail);
    SplitIsLossless(Outside, q);
    if Scan(Outside, q).Outside? {
      TailFields(n);
      SealedIfWhole(n.desc);
      TailKeys(n);
      assert f[|f| - 1] + "" == f[|f| - 1];
      if i < |f| {
        PiecesDiffer(n.desc, f, i);
      }
    } else {
      PlainTail(n);
      NoQuoteInTail(n);
      OpenFieldSwallows(Scan(Outside, q), tail);
      if i < |f| - 1 {
        PiecesDiffer(n.desc, f, i);
      } else if |f| == 1 {
        TailEnds(n);
        WholeDiffers(n.desc, tail);
      } else {
        var p := LastPieceEnds(f);
        var front := FrontOfQuoted(n.desc, p, f[i]);
        LastDiffers(n, front, f[i]);
      }
    }
  }

  lemma FrontOfQuoted(desc: string, p: string, g: string) returns (front: string)
    requires Field("desc", Quoted(desc)) == p + "," + g
    ensures desc + "\"" == front + "," + g
  {
    var d, more := FirstPieceOpens(desc, p, g);
    front := d;
  }

  lemma SealedIfWhole(desc: string)
    requires Scan(Outside, Field("desc", Quoted(desc))).Outside? && !Sealed(desc)
    ensures |FieldsFrom(Outside, Field("desc", Quoted(desc)))| > 1
  {
    hide Scan, NoBareComma, FieldsFrom, Quoted;
    var q, f := Field("desc", Quoted(desc)), FieldsFrom(Outside, Field("desc", Quoted(desc)));
    PlainScan("desc=");
    ScanAdds(Outside, "desc=", Quoted(desc));
    assert q == "desc=" + Quoted(desc);
    if |f| == 1 {
      OneFieldShowsNoComma(q);
    }
  }

  lemma OneFieldShowsNoComma(s: string)
    requires |FieldsFrom(Outside, s)| == 1
    ensures NoBareComma(Outside, s)
  {
    SplitIsLossless(Outside, s);
    assert Join(FieldsFrom(Outside, s), ',') == FieldsFrom(Outside, s)[0];
  }

  /** The fields of the tail have other keys. */
  lemma TailKeys(n: Node)
    requires PlainParts(n)
    ensures PairOf(PrintedFields(n)[3]) != Some(("desc", n.desc))
        && PairOf(PrintedFields(n)[4]) != Some(("desc", n.desc))
  {
    hide PairOf, DependsField, RunIfName, Field, Unquoted;
    PlainTail(n);
    FieldPair("depends_on", DependsField(n.dependsOn));
    FieldPair("run_if", RunIfName(n.runIf));
  }

  lemma HeadKeys(n: Node)
    requires PlainParts(n)
    ensures PairOf(PrintedFields(n)[0]) != Some(("desc", n.desc))
        && PairOf(PrintedFields(n)[1]) != Some(("desc", n.desc))
  {
    hide PairOf, DependsField, RunIfName, Field, Unquoted;
    FieldPair("id", n.id);
    FieldPair("agent", n.agent);
  }

  lemma DescIsRead(value: string, n: Node) returns (i: nat)
    requires Parsed(value) == Ok(n)
    ensures i < |Fields(value)| && PairOf(Fields(value)[i]) == Some(("desc", n.desc))
  {
    hide Fields, PairOf, MapOf;
    i := LastValue(PairsOf(Fields(value)), "desc");
  }

  /** For ids and agents free of `,`, `"` and outer spaces, and dependencies that are also non-empty
      and free of `|`: the printed form of a node parses back to it exactly if its description,
      put in quotes, closes them and shows no comma outside. */
  lemma ParsesBackExactly(n: Node)
    requires PlainParts(n)
    ensures Parsed(Printed(n)) == Ok(n) <==> Sealed(n.desc)
  {
    hide Parsed, Printed, Fields, FieldsFrom, PairOf, Sealed, PlainParts, Tail;
    if Sealed(n.desc) {
      ParsePrinted(n);
    } else if Parsed(Printed(n)) == Ok(n) {
      var i := DescIsRead(Printed(n), n);
      PrintedSplits(n);
      HeadKeys(n);
      if i >= 2 {
        UnsealedIsLost(n, i - 2);
      }
    }
  }
}
