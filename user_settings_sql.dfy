/** The `UPDATE` statement built by `updateUserSettings` in
    `lib/db-utils.ts`: a loop over the settings' entries that writes
    `key = ?` for each whitelisted key and collects the values to bind.

    The statement is modelled as the sequence of text fragments the builder
    appends (`Fragment`); `Render` turns it into the SQL text. */
module UserSettingsSql {

  datatype SqlValue = IntValue(i: int) | TextValue(s: string) | BoolValue(b: bool)

  /** One `[key, value]` pair of `Object.entries(settings)`. */
  type Entry = (string, SqlValue)

  const AllowedFields: seq<string> :=
    ["theme", "notifications_enabled", "email_notifications", "privacy_level", "show_email", "show_activity"]

  /** The pieces of text the builder concatenates. */
  datatype Fragment =
    | UpdateSet            // "UPDATE user_settings SET "
    | Comma                // ", "
    | Assign(key: string)  // `${key} = ?`
    | TouchUpdatedAt       // "updated_at = NOW()"
    | WhereUser            // " WHERE user_id = ?"

  function Text(f: Fragment): string {
    match f
    case UpdateSet => "UPDATE user_settings SET "
    case Comma => ", "
    case Assign(key) => key + " = ?"
    case TouchUpdatedAt => "updated_at = NOW()"
    case WhereUser => " WHERE user_id = ?"
  }

  /** The text of a statement, given the text of each fragment. */
  function Render(stmt: seq<Fragment>, text: Fragment -> string): string {
    if stmt == [] then "" else Render(stmt[..|stmt| - 1], text) + text(stmt[|stmt| - 1])
  }

  /** The SQL text of a statement. */
  function Sql(stmt: seq<Fragment>): string {
    Render(stmt, Text)
  }

  /** The literal appended after the loop, `", updated_at = NOW() WHERE user_id = ?"`. */
  const Trailer: seq<Fragment> := [Comma, TouchUpdatedAt, WhereUser]

  /** `names.includes(key)` */
  predicate Includes(names: seq<string>, key: string) {
    names != [] && (names[0] == key || Includes(names[1..], key))
  }

  lemma {:induction false} IncludesMeans(names: seq<string>, key: string)
    ensures Includes(names, key) <==> key in names
  {
    if names != [] {
      IncludesMeans(names[1..], key);
      assert names == [names[0]] + names[1..];
    }
  }

  predicate Allowed(e: Entry) {
    Includes(AllowedFields, e.0)
  }

  /** The entries among the first `n` whose key is whitelisted, in entry
      order: the ones the loop writes. */
  function Kept(s: seq<Entry>, n: nat): (r: seq<Entry>)
    requires n <= |s|
    ensures |r| <= n
  {
    if n == 0 then [] else Kept(s, n - 1) + (if Allowed(s[n - 1]) then [s[n - 1]] else [])
  }

  /** An entry is written exactly when it is one of the entries and its key
      is whitelisted. */
  lemma {:induction false} KeptMember(s: seq<Entry>, n: nat, e: Entry)
    requires n <= |s|
    ensures e in Kept(s, n) <==> e in s[..n] && Allowed(e)
  {
    if n > 0 {
      KeptMember(s, n - 1, e);
      assert s[..n] == s[..n - 1] + [s[n - 1]];
    }
  }

  /** The values of the kept entries among the first `n`, in order. */
  function KeptValues(s: seq<Entry>, n: nat): seq<SqlValue>
    requires n <= |s|
  {
    if n == 0 then [] else KeptValues(s, n - 1) + (if Allowed(s[n - 1]) then [s[n - 1].1] else [])
  }

  /** The assignments `key = ?` of the kept entries among the first `n`. */
  function KeptAssigns(s: seq<Entry>, n: nat): seq<Fragment>
    requires n <= |s|
  {
    if n == 0 then [] else KeptAssigns(s, n - 1) + (if Allowed(s[n - 1]) then [Assign(s[n - 1].0)] else [])
  }

  /** The values bound and the assignments written are those of the kept
      entries, one each, in the same order. */
  lemma {:induction false} KeptProjections(s: seq<Entry>, n: nat)
    requires n <= |s|
    ensures |KeptValues(s, n)| == |Kept(s, n)| == |KeptAssigns(s, n)|
    ensures forall i :: 0 <= i < |Kept(s, n)| ==>
              KeptValues(s, n)[i] == Kept(s, n)[i].1 && KeptAssigns(s, n)[i] == Assign(Kept(s, n)[i].0)
  {
    if n > 0 {
      KeptProjections(s, n - 1);
    }
  }

  /** An assignment is written once the first entry is whitelisted. */
  lemma {:induction false} FirstAssigned(s: seq<Entry>, n: nat)
    requires 0 < n <= |s| && Allowed(s[0])
    ensures |KeptAssigns(s, n)| > 0
  {
    if n > 1 {
      FirstAssigned(s, n - 1);
    }
  }

  /** `parts.join(", ")` */
  function Join(parts: seq<Fragment>): seq<Fragment> {
    if |parts| <= 1 then parts
    else Join(parts[..|parts| - 1]) + [Comma, parts[|parts| - 1]]
  }

  lemma JoinSnoc(parts: seq<Fragment>, p: Fragment)
    ensures Join(parts + [p]) == if |parts| == 0 then [p] else Join(parts) + [Comma, p]
  {
    assert (parts + [p])[..|parts|] == parts;
  }

  /** A join is empty exactly when there are no parts, and otherwise starts
      with the first part. */
  lemma {:induction false} JoinHead(parts: seq<Fragment>)
    ensures |Join(parts)| > 0 <==> |parts| > 0
    ensures |parts| > 0 ==> Join(parts)[0] == parts[0]
  {
    if |parts| > 1 {
      JoinHead(parts[..|parts| - 1]);
    }
  }

  /** What the loop appends for the entry at position `index` among ALL
      entries: the separator is keyed to that position, not to whether an
      assignment was already written. */
  function Piece(key: string, index: nat): seq<Fragment> {
    if Includes(AllowedFields, key) then (if index > 0 then [Comma] else []) + [Assign(key)] else []
  }

  /** The fragments the loop has appended after the first `n` entries. */
  function Built(s: seq<Entry>, n: nat): seq<Fragment>
    requires n <= |s|
  {
    if n == 0 then [] else Built(s, n - 1) + Piece(s[n - 1].0, n - 1)
  }

  /** The statement `updateUserSettings` sends, as written. */
  function WrittenQuery(settings: seq<Entry>): seq<Fragment> {
    [UpdateSet] + Built(settings, |settings|) + Trailer
  }

  /** The statement the builder is evidently meant to produce: the
      whitelisted assignments and `updated_at = NOW()`, joined by ", ". */
  function IntendedQuery(settings: seq<Entry>): seq<Fragment> {
    [UpdateSet] + Join(KeptAssigns(settings, |settings|) + [TouchUpdatedAt]) + [WhereUser]
  }

  lemma RenderSnoc(stmt: seq<Fragment>, f: Fragment, text: Fragment -> string)
    ensures Render(stmt + [f], text) == Render(stmt, text) + text(f)
  {
    assert (stmt + [f])[..|stmt|] == stmt;
  }

  /** Rendering distributes over concatenation of statements. */
  lemma {:induction false} RenderConcat(a: seq<Fragment>, b: seq<Fragment>, text: Fragment -> string)
    ensures Render(a + b, text) == Render(a, text) + Render(b, text)
    decreases |b|
  {
    if b == [] {
      assert a + b == a;
    } else {
      var init := b[..|b| - 1];
      assert a + b == (a + init) + [b[|b| - 1]];
      RenderSnoc(a + init, b[|b| - 1], text);
      RenderSnoc(init, b[|b| - 1], text);
      RenderConcat(a, init, text);
    }
  }

  lemma AppendAssoc(a: seq<Fragment>, b: seq<Fragment>, c: seq<Fragment>)
    ensures (a + b) + c == a + (b + c)
  {
  }

  /** `updateUserSettings` as written: the statement text and its parameter
      list. The statement is accumulated as fragments and rendered once. */
  method UpdateUserSettings(userId: int, settings: seq<Entry>) returns (sql: string, values: seq<SqlValue>)
    ensures sql == Sql(WrittenQuery(settings))
    ensures values == KeptValues(settings, |settings|) + [IntValue(userId)]
  {
    var stmt := [UpdateSet];
    values := [];
    var index := 0;
    while index < |settings|
      invariant 0 <= index <= |settings|
      invariant stmt == [UpdateSet] + Built(settings, index)
      invariant values == KeptValues(settings, index)
    {
      var key := settings[index].0;
      var value := settings[index].1;
      ghost var before := stmt;
      if Includes(AllowedFields, key) {
        if index > 0 {
          stmt := stmt + [Comma];
        }
        stmt := stmt + [Assign(key)];
        values := values + [value];
      }
      assert stmt == before + Piece(key, index);
      AppendAssoc([UpdateSet], Built(settings, index), Piece(key, index));
      index := index + 1;
    }
    stmt := stmt + Trailer;
    values := values + [IntValue(userId)];
    sql := Sql(stmt);
  }

  /** What `BuiltShape` states of the first `n` entries. */
  predicate ShapeHolds(s: seq<Entry>, n: nat)
    requires n <= |s|
  {
    Built(s, n) == if |KeptAssigns(s, n)| == 0 then []
                   else (if Allowed(s[0]) then [] else [Comma]) + Join(KeptAssigns(s, n))
  }

  /** The step of `BuiltShape` for a whitelisted entry after the first. */
  lemma ShapeStepAllowed(s: seq<Entry>, n: nat)
    requires 1 < n <= |s| && Allowed(s[n - 1]) && ShapeHolds(s, n - 1)
    ensures ShapeHolds(s, n)
  {
    var x := Assign(s[n - 1].0);
    var a := KeptAssigns(s, n - 1);
    JoinSnoc(a, x);
    assert Built(s, n) == Built(s, n - 1) + [Comma, x];
    if |a| == 0 {
      if Allowed(s[0]) {
        FirstAssigned(s, n - 1);
      }
    } else {
      var lead: seq<Fragment> := if Allowed(s[0]) then [] else [Comma];
      AppendAssoc(lead, Join(a), [Comma, x]);
    }
  }

  /** The step of `BuiltShape` for an entry off the whitelist. */
  lemma ShapeStepSkipped(s: seq<Entry>, n: nat)
    requires 0 < n <= |s| && !Allowed(s[n - 1]) && ShapeHolds(s, n - 1)
    ensures ShapeHolds(s, n)
  {
    assert Built(s, n) == Built(s, n - 1) + [] == Built(s, n - 1);
    assert KeptAssigns(s, n) == KeptAssigns(s, n - 1) + [] == KeptAssigns(s, n - 1);
  }

  /** The as-written assignments: the kept ones joined by ", ", with a stray
      leading ", " whenever the first entry is not whitelisted. */
  lemma {:induction false} BuiltShape(s: seq<Entry>, n: nat)
    requires n <= |s|
    ensures Built(s, n) == if |KeptAssigns(s, n)| == 0 then []
                           else (if Allowed(s[0]) then [] else [Comma]) + Join(KeptAssigns(s, n))
  {
    if n == 1 {
      if Allowed(s[0]) {
        assert Built(s, 1) == [] + [Assign(s[0].0)];
        assert KeptAssigns(s, 1) == [] + [Assign(s[0].0)];
      } else {
        assert Built(s, 1) == [] + [];
        assert KeptAssigns(s, 1) == [] + [];
      }
    } else if n > 1 {
      BuiltShape(s, n - 1);
      if Allowed(s[n - 1]) {
        ShapeStepAllowed(s, n);
      } else {
        ShapeStepSkipped(s, n);
      }
    }
  }

  /** When the first entry is whitelisted the statement is the intended one. */
  lemma WrittenIntendedWhenFirstAllowed(settings: seq<Entry>)
    requires |settings| > 0 && Allowed(settings[0])
    ensures WrittenQuery(settings) == IntendedQuery(settings)
  {
    var n := |settings|;
    BuiltShape(settings, n);
    FirstAssigned(settings, n);
    WrittenIffAssigned(settings, n);
    IntendedShape(settings);
    TrailerSplit([UpdateSet] + Built(settings, n));
  }

  /** The trailer is a separator followed by `updated_at` and the `WHERE`
      clause. */
  lemma TrailerSplit(x: seq<Fragment>)
    ensures x + [Comma] + [TouchUpdatedAt, WhereUser] == x + Trailer
  {
    assert [Comma] + [TouchUpdatedAt, WhereUser] == Trailer;
  }

  /** Otherwise the fragment after `SET` is the stray comma, where the
      intended statement has an assignment or `updated_at`. */
  lemma WrittenStrayComma(settings: seq<Entry>)
    requires !(|settings| > 0 && Allowed(settings[0]))
    ensures |WrittenQuery(settings)| > 1 && WrittenQuery(settings)[1] == Comma
    ensures |IntendedQuery(settings)| > 1 && IntendedQuery(settings)[1] != Comma
  {
    var n := |settings|;
    BuiltShape(settings, n);
    var a := KeptAssigns(settings, n);
    KeptProjections(settings, n);
    var b := Built(settings, n);
    assert b == [] || b[0] == Comma;
    assert WrittenQuery(settings) == [UpdateSet] + (b + Trailer);
    JoinHead(a + [TouchUpdatedAt]);
    var j := Join(a + [TouchUpdatedAt]);
    assert IntendedQuery(settings) == [UpdateSet] + (j + [WhereUser]);
    assert j[0] == (a + [TouchUpdatedAt])[0];
  }

  /** The separator rule gives the intended statement exactly when the first
      entry is whitelisted; otherwise (including when no key is whitelisted)
      the statement reads `SET , ...`. */
  lemma AsWrittenQueryCorrectIff(settings: seq<Entry>)
    ensures WrittenQuery(settings) == IntendedQuery(settings) <==> |settings| > 0 && Allowed(settings[0])
  {
    if |settings| > 0 && Allowed(settings[0]) {
      WrittenIntendedWhenFirstAllowed(settings);
    } else {
      WrittenStrayComma(settings);
    }
  }

  /** A single setting with a key off the whitelist gives
      `UPDATE user_settings SET , updated_at = NOW() WHERE user_id = ?`. */
  lemma StrayCommaExample()
    ensures WrittenQuery([("language", TextValue("pt"))]) == [UpdateSet, Comma, TouchUpdatedAt, WhereUser]
    ensures IntendedQuery([("language", TextValue("pt"))]) == [UpdateSet, TouchUpdatedAt, WhereUser]
  {
    var s: seq<Entry> := [("language", TextValue("pt"))];
    assert !Allowed(s[0]);
    assert KeptAssigns(s, 1) == [];
    assert Built(s, 1) == [];
  }

  /** What the corrected loop appends for an entry, given whether an
      assignment was already written. */
  function FixedPiece(key: string, written: bool): seq<Fragment> {
    if Includes(AllowedFields, key) then (if written then [Comma] else []) + [Assign(key)] else []
  }

  /** Whether one of the first `n` entries is whitelisted: the corrected
      loop's flag that an assignment was already written. */
  predicate Written(s: seq<Entry>, n: nat)
    requires n <= |s|
  {
    n > 0 && (Written(s, n - 1) || Allowed(s[n - 1]))
  }

  /** The flag is set exactly when an assignment has been written. */
  lemma {:induction false} WrittenIffAssigned(s: seq<Entry>, n: nat)
    requires n <= |s|
    ensures Written(s, n) <==> |KeptAssigns(s, n)| > 0
  {
    if n > 0 {
      WrittenIffAssigned(s, n - 1);
    }
  }

  /** The fragments the corrected loop has appended after the first `n`
      entries. */
  function FixedBuilt(s: seq<Entry>, n: nat): seq<Fragment>
    requires n <= |s|
  {
    if n == 0 then [] else FixedBuilt(s, n - 1) + FixedPiece(s[n - 1].0, Written(s, n - 1))
  }

  /** The corrected loop writes the kept assignments joined by ", ". */
  lemma {:induction false} FixedBuiltJoins(s: seq<Entry>, n: nat)
    requires n <= |s|
    ensures FixedBuilt(s, n) == Join(KeptAssigns(s, n))
  {
    if n > 0 {
      FixedBuiltJoins(s, n - 1);
      if Allowed(s[n - 1]) {
        FixedJoinsStepAllowed(s, n);
      } else {
        FixedJoinsStepSkipped(s, n);
      }
    }
  }

  /** The step of `FixedBuiltJoins` for a whitelisted entry. */
  lemma FixedJoinsStepAllowed(s: seq<Entry>, n: nat)
    requires 0 < n <= |s| && Allowed(s[n - 1])
    requires FixedBuilt(s, n - 1) == Join(KeptAssigns(s, n - 1))
    ensures FixedBuilt(s, n) == Join(KeptAssigns(s, n))
  {
    var a := KeptAssigns(s, n - 1);
    var x := Assign(s[n - 1].0);
    var w := Written(s, n - 1);
    FixedStep(s, n);
    WrittenIffAssigned(s, n - 1);
    JoinExtend(a, x, w);
    assert FixedPiece(s[n - 1].0, w) == (if w then [Comma] else []) + [x];
    assert KeptAssigns(s, n) == a + [x];
  }



  /** The step of `FixedBuiltJoins` for an entry off the whitelist. */
  lemma FixedJoinsStepSkipped(s: seq<Entry>, n: nat)
    requires 0 < n <= |s| && !Allowed(s[n - 1])
    requires FixedBuilt(s, n - 1) == Join(KeptAssigns(s, n - 1))
    ensures FixedBuilt(s, n) == Join(KeptAssigns(s, n))
  {
    assert FixedBuilt(s, n) == FixedBuilt(s, n - 1) + [] == FixedBuilt(s, n - 1);
    assert KeptAssigns(s, n) == KeptAssigns(s, n - 1) + [] == KeptAssigns(s, n - 1);
  }

  lemma FixedStep(s: seq<Entry>, n: nat)
    requires 0 < n <= |s|
    ensures FixedBuilt(s, n) == FixedBuilt(s, n - 1) + FixedPiece(s[n - 1].0, Written(s, n - 1))
  {
  }

  /** Joining one more part adds a separator only after an existing part. */
  lemma JoinExtend(parts: seq<Fragment>, p: Fragment, nonEmpty: bool)
    requires nonEmpty <==> |parts| > 0
    ensures Join(parts + [p]) == Join(parts) + ((if nonEmpty then [Comma] else []) + [p])
  {
    if nonEmpty {
      assert (parts + [p])[..|parts|] == parts;
      assert [Comma] + [p] == [Comma, p];
    } else {
      assert parts + [p] == [p];
      assert Join(parts) == [];
    }
  }

  /** The intended statement, with `updated_at` split off the join: the
      separator before it is there exactly when an assignment is. */
  lemma IntendedShape(settings: seq<Entry>)
    ensures IntendedQuery(settings) ==
            [UpdateSet] + Join(KeptAssigns(settings, |settings|)) +
            (if Written(settings, |settings|) then [Comma] else []) + [TouchUpdatedAt, WhereUser]
  {
    WrittenIffAssigned(settings, |settings|);
    JoinedTail(KeptAssigns(settings, |settings|), Written(settings, |settings|));
  }

  /** `updated_at` joined after the parts `a`, followed by the `WHERE` clause. */
  lemma JoinedTail(a: seq<Fragment>, nonEmpty: bool)
    requires nonEmpty <==> |a| > 0
    ensures [UpdateSet] + Join(a + [TouchUpdatedAt]) + [WhereUser] ==
            [UpdateSet] + Join(a) + (if nonEmpty then [Comma] else []) + [TouchUpdatedAt, WhereUser]
  {
    var sep: seq<Fragment> := if nonEmpty then [Comma] else [];
    JoinExtend(a, TouchUpdatedAt, nonEmpty);
    Regroup([UpdateSet], Join(a), sep, [TouchUpdatedAt], [WhereUser]);
    assert [TouchUpdatedAt] + [WhereUser] == [TouchUpdatedAt, WhereUser];
  }

  lemma Regroup(a: seq<Fragment>, b: seq<Fragment>, c: seq<Fragment>, d: seq<Fragment>, e: seq<Fragment>)
    ensures a + (b + (c + d)) + e == a + b + c + (d + e)
  {
  }

  /** The intended statement is what the corrected loop has written,
      followed by `updated_at` and the `WHERE` clause. */
  lemma FixedStatement(settings: seq<Entry>)
    ensures IntendedQuery(settings) ==
            [UpdateSet] + FixedBuilt(settings, |settings|) +
            (if Written(settings, |settings|) then [Comma] else []) + [TouchUpdatedAt, WhereUser]
  {
    FixedBuiltJoins(settings, |settings|);
    IntendedShape(settings);
  }

  /** The corrected builder: a separator only after an assignment that was
      actually written, and before `updated_at` only if there is one. */
  method UpdateUserSettingsFixed(userId: int, settings: seq<Entry>) returns (sql: string, values: seq<SqlValue>)
    ensures sql == Sql(IntendedQuery(settings))
    ensures values == KeptValues(settings, |settings|) + [IntValue(userId)]
  {
    var stmt := [UpdateSet];
    values := [];
    var written := false;
    var index := 0;
    while index < |settings|
      invariant 0 <= index <= |settings|
      invariant stmt == [UpdateSet] + FixedBuilt(settings, index)
      invariant written == Written(settings, index)
      invariant values == KeptValues(settings, index)
    {
      var key := settings[index].0;
      var value := settings[index].1;
      ghost var before := stmt;
      ghost var wasWritten := written;
      if Includes(AllowedFields, key) {
        if written {
          stmt := stmt + [Comma];
        }
        stmt := stmt + [Assign(key)];
        values := values + [value];
        written := true;
      }
      assert stmt == before + FixedPiece(key, wasWritten);
      AppendAssoc([UpdateSet], FixedBuilt(settings, index), FixedPiece(key, wasWritten));
      index := index + 1;
    }
    FixedStatement(settings);
    ghost var sep: seq<Fragment> := if written then [Comma] else [];
    if written {
      stmt := stmt + [Comma];
    }
    assert stmt == [UpdateSet] + FixedBuilt(settings, |settings|) + sep;
    stmt := stmt + [TouchUpdatedAt, WhereUser];
    values := values + [IntValue(userId)];
    sql := Sql(stmt);
  }

  /** Number of bind parameters a statement takes. */
  function Params(stmt: seq<Fragment>): nat {
    if stmt == [] then 0
    else Params(stmt[..|stmt| - 1]) + (if stmt[|stmt| - 1].Assign? || stmt[|stmt| - 1] == WhereUser then 1 else 0)
  }

  lemma {:induction false} ParamsConcat(a: seq<Fragment>, b: seq<Fragment>)
    ensures Params(a + b) == Params(a) + Params(b)
    decreases |b|
  {
    if b == [] {
      assert a + b == a;
    } else {
      var init := b[..|b| - 1];
      assert a + b == (a + init) + [b[|b| - 1]];
      assert (a + b)[..|a + b| - 1] == a + init;
      ParamsConcat(a, init);
    }
  }

  /** The assignments written for the first `n` entries take one parameter
      per kept entry. */
  lemma {:induction false} BuiltParams(s: seq<Entry>, n: nat)
    requires n <= |s|
    ensures Params(Built(s, n)) == |KeptValues(s, n)|
  {
    if n > 0 {
      BuiltParams(s, n - 1);
      var p := Piece(s[n - 1].0, n - 1);
      ParamsConcat(Built(s, n - 1), p);
      if Allowed(s[n - 1]) {
        var sep: seq<Fragment> := if n - 1 > 0 then [Comma] else [];
        ParamsConcat(sep, [Assign(s[n - 1].0)]);
        assert [Assign(s[n - 1].0)][..0] == [];
        assert sep == [] || sep[..0] == [];
      }
    }
  }

  /** A join takes the parameters of its parts. */
  lemma {:induction false} JoinParams(parts: seq<Fragment>)
    ensures Params(Join(parts)) == Params(parts)
  {
    if |parts| > 1 {
      var init := parts[..|parts| - 1];
      var last := parts[|parts| - 1];
      JoinParams(init);
      ParamsConcat(Join(init), [Comma, last]);
      assert [Comma, last][..1] == [Comma] && [Comma][..0] == [];
    }
  }

  lemma {:induction false} KeptAssignsParams(s: seq<Entry>, n: nat)
    requires n <= |s|
    ensures Params(KeptAssigns(s, n)) == |KeptValues(s, n)|
  {
    if n > 0 {
      KeptAssignsParams(s, n - 1);
      var extra: seq<Fragment> := if Allowed(s[n - 1]) then [Assign(s[n - 1].0)] else [];
      ParamsConcat(KeptAssigns(s, n - 1), extra);
      assert extra == [] || extra[..0] == [];
    }
  }

  /** As written, the statement takes as many parameters as there are values
      to bind. */
  lemma WrittenParams(userId: int, settings: seq<Entry>)
    ensures Params(WrittenQuery(settings)) == |KeptValues(settings, |settings|) + [IntValue(userId)]|
  {
    var b := Built(settings, |settings|);
    BuiltParams(settings, |settings|);
    ParamsConcat([UpdateSet] + b, Trailer);
    ParamsConcat([UpdateSet], b);
    assert [UpdateSet][..0] == [];
    assert Trailer[..2] == [Comma, TouchUpdatedAt] && Trailer[..2][..1] == [Comma] && [Comma][..0] == [];
  }

  /** So does the corrected statement. */
  lemma IntendedParams(userId: int, settings: seq<Entry>)
    ensures Params(IntendedQuery(settings)) == |KeptValues(settings, |settings|) + [IntValue(userId)]|
  {
    var a := KeptAssigns(settings, |settings|);
    KeptAssignsParams(settings, |settings|);
    JoinParams(a + [TouchUpdatedAt]);
    ParamsConcat(a, [TouchUpdatedAt]);
    assert [TouchUpdatedAt][..0] == [];
    var joined := Join(a + [TouchUpdatedAt]);
    ParamsConcat([UpdateSet] + joined, [WhereUser]);
    ParamsConcat([UpdateSet], joined);
    assert [UpdateSet][..0] == [] && [WhereUser][..0] == [];
  }

  /** Number of `?` characters in a text. */
  function Placeholders(s: string): nat {
    if s == [] then 0 else Placeholders(s[..|s| - 1]) + (if s[|s| - 1] == '?' then 1 else 0)
  }

  lemma {:induction false} PlaceholdersConcat(a: string, b: string)
    ensures Placeholders(a + b) == Placeholders(a) + Placeholders(b)
    decreases |b|
  {
    if b == [] {
      assert a + b == a;
    } else {
      assert (a + b)[..|a + b| - 1] == a + b[..|b| - 1];
      PlaceholdersConcat(a, b[..|b| - 1]);
    }
  }

  /** `s` holds no `?`. */
  predicate Unmarked(s: string) {
    forall i :: 0 <= i < |s| ==> s[i] != '?'
  }

  lemma {:induction false} UnmarkedNone(s: string)
    requires Unmarked(s)
    ensures Placeholders(s) == 0
  {
    if s != [] {
      UnmarkedNone(s[..|s| - 1]);
    }
  }

  /** No whitelisted name holds a `?`. */
  lemma WhitelistUnmarked(key: string)
    requires Includes(AllowedFields, key)
    ensures Unmarked(key)
  {
    WhitelistNamesUnmarked();
    IncludedUnmarked(AllowedFields, key);
  }

  lemma WhitelistNamesUnmarked()
    ensures forall i :: 0 <= i < |AllowedFields| ==> Unmarked(AllowedFields[i])
  {
  }

  lemma {:induction false} IncludedUnmarked(names: seq<string>, key: string)
    requires Includes(names, key) && forall i :: 0 <= i < |names| ==> Unmarked(names[i])
    ensures Unmarked(key)
  {
    if names[0] != key {
      assert forall i :: 0 <= i < |names[1..]| ==> names[1..][i] == names[i + 1];
      IncludedUnmarked(names[1..], key);
    }
  }

  /** Each fragment's text holds one `?` per parameter it takes. */
  lemma FragmentPlaceholders(f: Fragment)
    requires f.Assign? ==> Unmarked(f.key)
    ensures Placeholders(Text(f)) == Params([f])
  {
    assert [f][..0] == [];
    match f
    case Assign(key) =>
      assert Unmarked(" = ");
      UnmarkedNone(key);
      UnmarkedNone(" = ");
      PlaceholdersConcat(key, " = ");
      PlaceholdersConcat(key + " = ", "?");
      assert key + " = ?" == key + " = " + "?";
    case WhereUser =>
      var w := " WHERE user_id = ";
      assert Unmarked(w);
      UnmarkedNone(w);
      PlaceholdersConcat(w, "?");
      assert " WHERE user_id = ?" == w + "?";
    case _ =>
      assert Unmarked(Text(f));
      UnmarkedNone(Text(f));
  }

  /** Every assignment in `stmt` names a whitelisted key. */
  predicate KeysAllowed(stmt: seq<Fragment>) {
    forall i :: 0 <= i < |stmt| && stmt[i].Assign? ==> Includes(AllowedFields, stmt[i].key)
  }

  lemma KeysAllowedConcat(a: seq<Fragment>, b: seq<Fragment>)
    requires KeysAllowed(a) && KeysAllowed(b)
    ensures KeysAllowed(a + b)
  {
    forall i | 0 <= i < |a + b| && (a + b)[i].Assign?
      ensures Includes(AllowedFields, (a + b)[i].key)
    {
      if i >= |a| {
        assert (a + b)[i] == b[i - |a|];
      }
    }
  }

  lemma {:induction false} BuiltKeysAllowed(s: seq<Entry>, n: nat)
    requires n <= |s|
    ensures KeysAllowed(Built(s, n))
  {
    if n > 0 {
      BuiltKeysAllowed(s, n - 1);
      KeysAllowedConcat(Built(s, n - 1), Piece(s[n - 1].0, n - 1));
    }
  }

  lemma {:induction false} FixedBuiltKeysAllowed(s: seq<Entry>, n: nat)
    requires n <= |s|
    ensures KeysAllowed(FixedBuilt(s, n))
  {
    if n > 0 {
      FixedBuiltKeysAllowed(s, n - 1);
      KeysAllowedConcat(FixedBuilt(s, n - 1), FixedPiece(s[n - 1].0, Written(s, n - 1)));
    }
  }

  /** The text of a statement holds one `?` per parameter it takes. */
  lemma {:induction false} SqlPlaceholders(stmt: seq<Fragment>)
    requires KeysAllowed(stmt)
    ensures Placeholders(Sql(stmt)) == Params(stmt)
  {
    if stmt != [] {
      var init := stmt[..|stmt| - 1];
      var f := stmt[|stmt| - 1];
      assert init + [f] == stmt;
      assert KeysAllowed(init);
      SqlPlaceholders(init);
      if f.Assign? {
        WhitelistUnmarked(f.key);
      }
      FragmentPlaceholders(f);
      RenderSnoc(init, f, Text);
      PlaceholdersConcat(Sql(init), Text(f));
      ParamsConcat(init, [f]);
    }
  }

  /** As written, the statement text holds as many `?` as there are values
      to bind. */
  lemma PlaceholdersMatchValues(userId: int, settings: seq<Entry>)
    ensures Placeholders(Sql(WrittenQuery(settings))) == |KeptValues(settings, |settings|) + [IntValue(userId)]|
  {
    var b := Built(settings, |settings|);
    WrittenParams(userId, settings);
    BuiltKeysAllowed(settings, |settings|);
    KeysAllowedConcat([UpdateSet], b);
    KeysAllowedConcat([UpdateSet] + b, Trailer);
    SqlPlaceholders(WrittenQuery(settings));
  }

  /** So does the text of the corrected statement. */
  lemma IntendedPlaceholdersMatchValues(userId: int, settings: seq<Entry>)
    ensures Placeholders(Sql(IntendedQuery(settings))) == |KeptValues(settings, |settings|) + [IntValue(userId)]|
  {
    var b := FixedBuilt(settings, |settings|);
    IntendedParams(userId, settings);
    FixedStatement(settings);
    FixedBuiltKeysAllowed(settings, |settings|);
    var sep: seq<Fragment> := if Written(settings, |settings|) then [Comma] else [];
    KeysAllowedConcat([UpdateSet], b);
    KeysAllowedConcat([UpdateSet] + b, sep);
    KeysAllowedConcat([UpdateSet] + b + sep, [TouchUpdatedAt, WhereUser]);
    SqlPlaceholders(IntendedQuery(settings));
  }
}
