/** The PostgreSQL connection settings of a template or test database, and
    their rendering into a libpq keyword/value connection string
    (pkg/models/database_config.go). */
module Models {
  import opened Lex
  import opened Decimal
  import Sorting

  /** Connection parameters of one database. `additionalParams` holds the
      optional extra keywords; a nil map and an empty map behave alike. */
  datatype DatabaseConfig = DatabaseConfig(
    host: string,
    port: int,
    username: string,
    password: string,
    database: string,
    additionalParams: map<string, string>)

  /** One `keyword=value` pair of the connection string, value as written. */
  datatype Param = Param(key: string, value: string)

  // ---------------------------------------------------------------------
  // Quoting of a single value

  /** A value as it is written into the connection string: the empty
      value becomes '', a value holding a space is wrapped in single
      quotes, anything else is written as it is. Nothing is escaped. */
  function QuoteConfigParameter(s: string): (r: string)
    ensures r != []
    ensures r == s <==> s != [] && ' ' !in s
    ensures r != s ==> r == "'" + s + "'"
    ensures ' ' in r <==> ' ' in s
  {
    if s == "" then "''"
    else if ' ' !in s then s
    else "'" + s + "'"
  }

  /** Strips one pair of enclosing single quotes: the reading that libpq
      gives a quoted value holding no quote or backslash of its own. */
  function Unquote(r: string): string
  {
    if |r| >= 2 && r[0] == '\'' && r[|r| - 1] == '\'' then r[1..|r| - 1] else r
  }

  /** A value without single quotes is recovered from its quoted form. */
  lemma QuoteRoundTrip(s: string)
    requires '\'' !in s
    ensures Unquote(QuoteConfigParameter(s)) == s
  {
  }

  /** Without escaping, the empty value and the two-character value ''
      are written identically. */
  lemma QuoteCollision()
    ensures QuoteConfigParameter("") == QuoteConfigParameter("''")
  {
  }

  // ---------------------------------------------------------------------
  // The connection string as a list of keyword/value fields

  function FieldText(p: Param): string
  {
    p.key + "=" + p.value
  }

  /** The fields written with one space between neighbours. */
  function Join(fs: seq<Param>): string
    decreases |fs|
  {
    if |fs| == 0 then ""
    else if |fs| == 1 then FieldText(fs[0])
    else Join(fs[..|fs| - 1]) + " " + FieldText(fs[|fs| - 1])
  }

  /** The fields each written after a space. */
  function Spaced(fs: seq<Param>): string
    decreases |fs|
  {
    if fs == [] then ""
    else Spaced(fs[..|fs| - 1]) + " " + FieldText(fs[|fs| - 1])
  }

  /** The five fields always written first, from their written values. */
  function FixedFieldsOf(host: string, port: string, user: string, password: string, dbname: string): seq<Param>
  {
    [ Param("host", host),
      Param("port", port),
      Param("user", user),
      Param("password", password),
      Param("dbname", dbname) ]
  }

  function FixedFields(c: DatabaseConfig): seq<Param>
  {
    FixedFieldsOf(QuoteConfigParameter(c.host), FormatInt(c.port), QuoteConfigParameter(c.username),
      QuoteConfigParameter(c.password), QuoteConfigParameter(c.database))
  }

  /** The default sslmode, present only when the caller gave none. */
  function DefaultFields(m: map<string, string>): seq<Param>
  {
    if "sslmode" in m then [] else [Param("sslmode", "disable")]
  }

  /** The fields for the given keys of the additional parameters, in the
      order of `ks`, each value quoted. */
  function ParamFields(m: map<string, string>, ks: seq<string>): (r: seq<Param>)
    requires forall k :: k in ks ==> k in m
    ensures |r| == |ks|
    decreases |ks|
  {
    if ks == [] then []
    else
      var last := ks[|ks| - 1];
      ParamFields(m, ks[..|ks| - 1]) + [Param(last, QuoteConfigParameter(m[last]))]
  }

  /** One field per listed key, in the listed order, holding the key
      verbatim and its quoted value. */
  lemma {:induction false} ParamFieldsAt(m: map<string, string>, ks: seq<string>)
    requires forall k :: k in ks ==> k in m
    ensures forall i :: 0 <= i < |ks| ==>
      ParamFields(m, ks)[i] == Param(ks[i], QuoteConfigParameter(m[ks[i]]))
    decreases |ks|
  {
    if ks != [] {
      var init := ks[..|ks| - 1];
      ParamFieldsAt(m, init);
      forall i | 0 <= i < |ks| - 1
        ensures ParamFields(m, ks)[i] == Param(ks[i], QuoteConfigParameter(m[ks[i]]))
      {
        assert ParamFields(m, ks)[i] == ParamFields(m, init)[i];
        assert init[i] == ks[i];
      }
    }
  }

  /** The additional parameters in ascending key order. */
  ghost function SortedParams(m: map<string, string>): seq<Param>
  {
    ParamFields(m, SortedKeys(m.Keys))
  }

  /** Every field of the connection string, in the order written. */
  ghost function Fields(c: DatabaseConfig): seq<Param>
  {
    FixedFields(c) + DefaultFields(c.additionalParams) + SortedParams(c.additionalParams)
  }

  /** The connection string the configuration renders to. */
  ghost function Render(c: DatabaseConfig): string
  {
    Join(Fields(c))
  }

  /** How often a keyword occurs among the fields. */
  function KeyCount(fs: seq<Param>, k: string): nat
    decreases |fs|
  {
    if fs == [] then 0
    else KeyCount(fs[..|fs| - 1], k) + (if fs[|fs| - 1].key == k then 1 else 0)
  }

  // ---------------------------------------------------------------------
  // Properties of the field list and its text

  lemma {:induction false} JoinAppend(a: seq<Param>, b: seq<Param>)
    requires a != []
    ensures Join(a + b) == Join(a) + Spaced(b)
    decreases |b|
  {
    if b != [] {
      var b' := b[..|b| - 1];
      JoinAppend(a, b');
      assert (a + b)[..|a + b| - 1] == a + b';
    } else {
      assert a + b == a;
    }
  }

  lemma {:induction false} KeyCountAppend(a: seq<Param>, b: seq<Param>, k: string)
    ensures KeyCount(a + b, k) == KeyCount(a, k) + KeyCount(b, k)
    decreases |b|
  {
    if b == [] {
      assert a + b == a;
    } else {
      var b' := b[..|b| - 1];
      KeyCountAppend(a, b', k);
      assert (a + b)[..|a + b| - 1] == a + b';
    }
  }

  /** With distinct keys, each listed key yields exactly one field and any
      other key none. */
  lemma {:induction false} ParamFieldsCount(m: map<string, string>, ks: seq<string>, k: string)
    requires forall j :: j in ks ==> j in m
    requires Distinct(ks)
    ensures KeyCount(ParamFields(m, ks), k) == if k in ks then 1 else 0
    decreases |ks|
  {
    if ks != [] {
      var init := ks[..|ks| - 1];
      assert ks == init + [ks[|ks| - 1]];
      assert Distinct(init);
      ParamFieldsCount(m, init, k);
      assert ParamFields(m, ks)[..|ks| - 1] == ParamFields(m, init);
    }
  }

  /** The text of the five fixed fields is the format string of the source
      filled with the quoted host, the port, the quoted user, password and
      database name. */
  function Prefix(c: DatabaseConfig): string
  {
    "host=" + QuoteConfigParameter(c.host) +
    " port=" + FormatInt(c.port) +
    " user=" + QuoteConfigParameter(c.username) +
    " password=" + QuoteConfigParameter(c.password) +
    " dbname=" + QuoteConfigParameter(c.database)
  }

  lemma SpaceField(x: string, k: string, v: string)
    ensures x + " " + FieldText(Param(k, v)) == x + (" " + k + "=") + v
  {
  }

  /** Five fields with the fixed keywords render as the format string. */
  lemma FiveFields(q0: string, q1: string, q2: string, q3: string, q4: string)
    ensures Join(FixedFieldsOf(q0, q1, q2, q3, q4)) ==
      "host=" + q0 + " port=" + q1 + " user=" + q2 + " password=" + q3 + " dbname=" + q4
  {
    var fs := [Param("host", q0), Param("port", q1), Param("user", q2),
               Param("password", q3), Param("dbname", q4)];
    var s1 := "host=" + q0;
    assert Join(fs[..1]) == s1 by {
      assert fs[..1] == [Param("host", q0)];
      assert "host" + "=" == "host=";
    }
    var s2 := s1 + " port=" + q1;
    assert Join(fs[..2]) == s2 by {
      assert fs[..2][..1] == fs[..1];
      SpaceField(s1, "port", q1);
      assert " " + "port" + "=" == " port=";
    }
    var s3 := s2 + " user=" + q2;
    assert Join(fs[..3]) == s3 by {
      assert fs[..3][..2] == fs[..2];
      SpaceField(s2, "user", q2);
      assert " " + "user" + "=" == " user=";
    }
    var s4 := s3 + " password=" + q3;
    assert Join(fs[..4]) == s4 by {
      assert fs[..4][..3] == fs[..3];
      SpaceField(s3, "password", q3);
      assert " " + "password" + "=" == " password=";
    }
    assert Join(fs) == s4 + " dbname=" + q4 by {
      assert fs[..|fs| - 1] == fs[..4];
      SpaceField(s4, "dbname", q4);
      assert " " + "dbname" + "=" == " dbname=";
    }
  }

  lemma FixedText(c: DatabaseConfig)
    ensures Join(FixedFields(c)) == Prefix(c)
  {
    FiveFields(QuoteConfigParameter(c.host), FormatInt(c.port), QuoteConfigParameter(c.username),
      QuoteConfigParameter(c.password), QuoteConfigParameter(c.database));
  }

  /** The text of the fixed fields and the default sslmode. */
  lemma HeadText(c: DatabaseConfig)
    ensures Join(FixedFields(c) + DefaultFields(c.additionalParams)) ==
      Prefix(c) + if "sslmode" in c.additionalParams then "" else " sslmode=disable"
  {
    FixedText(c);
    JoinAppend(FixedFields(c), DefaultFields(c.additionalParams));
    DefaultText(c.additionalParams);
  }

  lemma DefaultText(m: map<string, string>)
    ensures Spaced(DefaultFields(m)) == if "sslmode" in m then "" else " sslmode=disable"
  {
  }

  lemma {:induction false} KeyCountAbsent(fs: seq<Param>, k: string)
    requires forall i :: 0 <= i < |fs| ==> fs[i].key != k
    ensures KeyCount(fs, k) == 0
    decreases |fs|
  {
    if fs != [] {
      KeyCountAbsent(fs[..|fs| - 1], k);
    }
  }

  lemma JoinSnoc(fs: seq<Param>, p: Param)
    requires fs != []
    ensures Join(fs + [p]) == Join(fs) + " " + FieldText(p)
  {
  }

  lemma ParamFieldsSnoc(m: map<string, string>, ks: seq<string>, i: nat)
    requires i < |ks|
    requires forall k :: k in ks ==> k in m
    ensures ParamFields(m, ks[..i + 1]) == ParamFields(m, ks[..i]) + [Param(ks[i], QuoteConfigParameter(m[ks[i]]))]
  {
    assert ks[..i + 1][..i] == ks[..i];
  }

  /** Writing one more parameter appends ` key=<quoted value>`. */
  lemma ParamStep(head: seq<Param>, m: map<string, string>, ks: seq<string>, i: nat)
    requires head != []
    requires i < |ks|
    requires forall k :: k in ks ==> k in m
    ensures Join(head + ParamFields(m, ks[..i + 1])) ==
      Join(head + ParamFields(m, ks[..i])) + " " + ks[i] + "=" + QuoteConfigParameter(m[ks[i]])
  {
    var p := Param(ks[i], QuoteConfigParameter(m[ks[i]]));
    var done := head + ParamFields(m, ks[..i]);
    ParamFieldsSnoc(m, ks, i);
    assert head + ParamFields(m, ks[..i + 1]) == done + [p];
    JoinSnoc(done, p);
  }

  /** The whole connection string, piece by piece: the five fixed fields,
      then ` sslmode=disable` exactly when the caller gave no sslmode, then
      ` key=value` for each additional parameter in ascending key order,
      and nothing else. */
  lemma RenderLayout(c: DatabaseConfig)
    ensures Render(c) ==
      Prefix(c) +
      (if "sslmode" in c.additionalParams then "" else " sslmode=disable") +
      Spaced(SortedParams(c.additionalParams))
  {
    var m := c.additionalParams;
    var head := FixedFields(c) + DefaultFields(m);
    HeadText(c);
    JoinAppend(head, SortedParams(m));
  }

  lemma {:induction false} SpacedAppend(a: seq<Param>, b: seq<Param>)
    ensures Spaced(a + b) == Spaced(a) + Spaced(b)
    decreases |b|
  {
    if b == [] {
      assert a + b == a;
    } else {
      var b' := b[..|b| - 1];
      SpacedAppend(a, b');
      assert (a + b)[..|a + b| - 1] == a + b';
      assert Spaced(a + b) == Spaced(a + b') + " " + FieldText(b[|b| - 1]);
    }
  }

  /** The output always begins with host, port, user, password and dbname,
      in that order, separated by single spaces. */
  lemma FixedPrefix(c: DatabaseConfig)
    ensures Prefix(c) <= Render(c)
  {
    RenderLayout(c);
  }

  /** Without a caller-supplied sslmode, ` sslmode=disable` follows the
      dbname field directly. */
  lemma SslModeDefaultText(c: DatabaseConfig)
    requires "sslmode" !in c.additionalParams
    ensures Prefix(c) + " sslmode=disable" <= Render(c)
  {
    RenderLayout(c);
  }

  /** Without additional parameters the output is the five fixed fields
      followed by ` sslmode=disable`, and nothing more. */
  lemma NoAdditionalParams(c: DatabaseConfig)
    requires c.additionalParams == map[]
    ensures Render(c) == Prefix(c) + " sslmode=disable"
  {
    RenderLayout(c);
    assert SortedKeys(c.additionalParams.Keys) == [];
  }

  /** Exactly one sslmode field is written, whether or not the caller
      gave one. */
  lemma SslModeExactlyOnce(c: DatabaseConfig)
    ensures KeyCount(Fields(c), "sslmode") == 1
  {
    var m := c.additionalParams;
    var fixed, dflt, ps := FixedFields(c), DefaultFields(m), SortedParams(m);
    FixedNoSslMode(c);
    KeyCountAbsent(fixed, "sslmode");
    DefaultCount(m);
    SortedParamsCount(m, "sslmode");
    KeyCountThree(fixed, dflt, ps, "sslmode");
  }

  lemma KeyCountThree(a: seq<Param>, b: seq<Param>, d: seq<Param>, k: string)
    ensures KeyCount(a + b + d, k) == KeyCount(a, k) + KeyCount(b, k) + KeyCount(d, k)
  {
    KeyCountAppend(a + b, d, k);
    KeyCountAppend(a, b, k);
  }

  lemma DefaultCount(m: map<string, string>)
    ensures KeyCount(DefaultFields(m), "sslmode") == if "sslmode" in m then 0 else 1
  {
  }

  /** Each key of the map has exactly one parameter field, any other key
      none. */
  lemma SortedParamsCount(m: map<string, string>, k: string)
    ensures KeyCount(SortedParams(m), k) == if k in m then 1 else 0
  {
    var ks := SortedKeys(m.Keys);
    AscendingDistinct(ks);
    ParamFieldsCount(m, ks, k);
  }

  /** Every field with keyword `k` carries value `v`. */
  predicate OnlyValue(fs: seq<Param>, k: string, v: string)
  {
    forall i :: 0 <= i < |fs| && fs[i].key == k ==> fs[i].value == v
  }

  lemma OnlyValueAppend(a: seq<Param>, b: seq<Param>, k: string, v: string)
    requires OnlyValue(a, k, v) && OnlyValue(b, k, v)
    ensures OnlyValue(a + b, k, v)
  {
  }

  /** None of the five fixed fields is called sslmode. */
  lemma FixedNoSslMode(c: DatabaseConfig)
    ensures forall i :: 0 <= i < |FixedFields(c)| ==> FixedFields(c)[i].key != "sslmode"
  {
  }

  /** A parameter field with keyword `k` carries the quoted value of `k`
      in the map. */
  lemma SortedParamsValue(m: map<string, string>, k: string, v: string)
    requires k in m ==> v == QuoteConfigParameter(m[k])
    ensures OnlyValue(SortedParams(m), k, v)
  {
    var ps := SortedParams(m);
    var ks := SortedKeys(m.Keys);
    ParamFieldsAt(m, ks);
    forall j | 0 <= j < |ps| && ps[j].key == k ensures ps[j].value == v {
      assert ps[j] == Param(ks[j], QuoteConfigParameter(m[ks[j]]));
      assert ks[j] in m;
    }
  }

  /** The sslmode field carries the default `disable`, right after dbname,
      when the caller gave none, and otherwise only the caller's quoted
      value. */
  lemma SslModeValue(c: DatabaseConfig)
    ensures "sslmode" !in c.additionalParams ==> Fields(c)[5] == Param("sslmode", "disable")
    ensures OnlyValue(Fields(c), "sslmode",
      if "sslmode" in c.additionalParams
      then QuoteConfigParameter(c.additionalParams["sslmode"])
      else "disable")
  {
    var m := c.additionalParams;
    var v := if "sslmode" in m then QuoteConfigParameter(m["sslmode"]) else "disable";
    var fixed, dflt, ps := FixedFields(c), DefaultFields(m), SortedParams(m);
    FixedNoSslMode(c);
    assert OnlyValue(dflt, "sslmode", v);
    SortedParamsValue(m, "sslmode", v);
    OnlyValueAppend(fixed, dflt, "sslmode", v);
    OnlyValueAppend(fixed + dflt, ps, "sslmode", v);
  }

  /** Every additional parameter is written exactly once: there are as
      many parameter fields as map entries and each key occurs once. */
  lemma ParamsExactlyOnce(m: map<string, string>)
    ensures |SortedParams(m)| == |m|
    ensures forall k :: k in m ==> KeyCount(SortedParams(m), k) == 1
  {
    assert |m.Keys| == |m|;
    forall k | k in m ensures KeyCount(SortedParams(m), k) == 1 {
      SortedParamsCount(m, k);
    }
  }

  /** Each parameter field is a key of the map, written verbatim, with
      its quoted value. */
  lemma ParamsFromMap(m: map<string, string>)
    ensures forall i :: 0 <= i < |SortedParams(m)| ==>
      SortedParams(m)[i].key in m &&
      SortedParams(m)[i].value == QuoteConfigParameter(m[SortedParams(m)[i].key])
  {
    ParamFieldsAt(m, SortedKeys(m.Keys));
  }

  /** The parameter fields are in strictly ascending key order. */
  lemma ParamsAscending(m: map<string, string>)
    ensures forall i, j :: 0 <= i < j < |SortedParams(m)| ==>
      Less(SortedParams(m)[i].key, SortedParams(m)[j].key)
  {
    ParamFieldsAt(m, SortedKeys(m.Keys));
  }

  /** The parameters of the worked example, written in ascending order. */
  lemma ExampleParams()
    ensures Spaced(SortedParams(map["b" := "2", "a" := "1"])) == " a=1 b=2"
  {
    var m := map["b" := "2", "a" := "1"];
    ExampleKeys();
    ParamFieldsAt(m, ["a", "b"]);
    assert SortedParams(m) == [Param("a", "1"), Param("b", "2")];
    ExampleSpaced();
  }

  lemma ExampleKeys()
    ensures SortedKeys(map["b" := "2", "a" := "1"].Keys) == ["a", "b"]
  {
  }

  lemma ExampleSpaced()
    ensures Spaced([Param("a", "1"), Param("b", "2")]) == " a=1 b=2"
  {
  }

  /** The example's port, 5432, written with `%d`. */
  lemma PortText()
    ensures FormatInt(5432) == "5432"
  {
  }

  /** The five fixed fields of the worked example. The solver needs the
      literal built one field at a time. */
  lemma ExamplePrefix()
    ensures Prefix(DatabaseConfig("localhost", 5432, "u", "p", "d", map["b" := "2", "a" := "1"]))
      == "host=localhost port=5432 user=u password=p dbname=d"
  {
    PortText();
    assert QuoteConfigParameter("localhost") == "localhost";
    var s1 := "host=" + "localhost";
    assert s1 == "host=localhost";
    var s2 := s1 + " port=" + "5432";
    assert s2 == "host=localhost port=5432";
    var s3 := s2 + " user=" + "u";
    assert s3 == "host=localhost port=5432 user=u";
    var s4 := s3 + " password=" + "p";
    assert s4 == "host=localhost port=5432 user=u password=p";
    var s5 := s4 + " dbname=" + "d";
    assert s5 == "host=localhost port=5432 user=u password=p dbname=d";
  }

  /** The worked example: parameters given as {b: 2, a: 1} are written in
      key order after the default sslmode. */
  lemma Example()
    ensures Render(DatabaseConfig("localhost", 5432, "u", "p", "d", map["b" := "2", "a" := "1"]))
      == "host=localhost port=5432 user=u password=p dbname=d sslmode=disable a=1 b=2"
  {
    var c := DatabaseConfig("localhost", 5432, "u", "p", "d", map["b" := "2", "a" := "1"]);
    ExampleParams();
    ExamplePrefix();
    RenderLayout(c);
    ExampleText();
  }

  /** The three parts of the worked example's text, joined. */
  lemma ExampleText()
    ensures "host=localhost port=5432 user=u password=p dbname=d" + " sslmode=disable" + " a=1 b=2"
      == "host=localhost port=5432 user=u password=p dbname=d sslmode=disable a=1 b=2"
  {
  }

  // ---------------------------------------------------------------------
  // The renderer as the source writes it

  /** Renders the connection string with a string builder: the fixed
      fields, the default sslmode, then the keys of the map collected in
      whatever order the map yields them, sorted, and written one by one.
      The result is the same for every iteration order of the map. */
  method ConnectionString(c: DatabaseConfig) returns (s: string)
    ensures s == Render(c)
  {
    var m := c.additionalParams;
    var b := "host=" + QuoteConfigParameter(c.host) +
      " port=" + FormatInt(c.port) +
      " user=" + QuoteConfigParameter(c.username) +
      " password=" + QuoteConfigParameter(c.password) +
      " dbname=" + QuoteConfigParameter(c.database);

    if "sslmode" !in m {
      b := b + " sslmode=disable";
    }
    ghost var head := FixedFields(c) + DefaultFields(m);
    HeadText(c);

    if |m| > 0 {
      var params := CollectKeys(m);
      ghost var collected := params[..];
      Sorting.SortStrings(params);
      SortedCollectedKeys(m.Keys, collected, params[..]);
      b := WriteParams(b, head, m, params);
    } else {
      assert m.Keys == {};
      assert head + SortedParams(m) == head;
    }
    s := b;
  }

  /** Appends the keys of the map to a fresh slice, in the map's iteration
      order, which is arbitrary: each key is picked from those not yet
      taken. */
  method CollectKeys(m: map<string, string>) returns (params: array<string>)
    ensures fresh(params)
    ensures params.Length == |m|
    ensures Distinct(params[..])
    ensures forall k :: k in params[..] <==> k in m
  {
    params := new string[|m|];
    var n := 0;
    var pending := m.Keys;
    assert |m.Keys| == |m|;
    while pending != {}
      invariant 0 <= n <= params.Length
      invariant n + |pending| == params.Length
      invariant pending <= m.Keys
      invariant forall i :: 0 <= i < n ==> params[i] in m && params[i] !in pending
      invariant forall k :: k in m ==> k in pending || k in params[..n]
      invariant Distinct(params[..n])
      decreases |pending|
    {
      var k :| k in pending;
      ghost var before := params[..n];
      params[n] := k;
      assert params[..n + 1] == before + [k];
      n := n + 1;
      pending := pending - {k};
    }
    assert params[..n] == params[..];
  }

  /** Writes ` key=<quoted value>` to the builder for each key of the
      slice, in the slice's order. */
  method WriteParams(b0: string, ghost head: seq<Param>, m: map<string, string>, params: array<string>)
    returns (b: string)
    requires head != [] && b0 == Join(head)
    requires forall k :: k in params[..] ==> k in m
    ensures b == Join(head + ParamFields(m, params[..]))
  {
    b := b0;
    assert head + ParamFields(m, params[..0]) == head;
    var i := 0;
    while i < params.Length
      invariant 0 <= i <= params.Length
      invariant b == Join(head + ParamFields(m, params[..i]))
    {
      ParamStep(head, m, params[..], i);
      assert params[..][..i + 1] == params[..i + 1] && params[..][..i] == params[..i];
      b := b + " " + params[i] + "=" + QuoteConfigParameter(m[params[i]]);
      i := i + 1;
    }
    assert params[..i] == params[..];
  }
}
