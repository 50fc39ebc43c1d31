/** The `ALLOWED_USERS` setting (bot/config.py): the before-validator that
    turns the raw environment value into a list of user ids. */
module Config {
  import opened Wrappers
  import opened Strings

  /** The raw value the validator receives. */
  datatype RawUsers =
    | NoValue                   // None
    | Text(s: string)           // a string from the environment
    | List(ids: seq<int>)       // an already parsed list
    | OtherValue                // any other type

  /** `[p.strip() for p in v.split(",") if p.strip()]` */
  function Parts(s: string): (r: seq<string>)
    ensures forall i :: 0 <= i < |r| ==> r[i] != ""
  {
    PartsOf(Split(s, ','))
  }

  function PartsOf(pieces: seq<string>): (r: seq<string>)
    ensures |r| <= |pieces|
    ensures forall i :: 0 <= i < |r| ==> r[i] != ""
  {
    if pieces == [] then []
    else
      var p := Strip(pieces[|pieces| - 1]);
      PartsOf(pieces[..|pieces| - 1]) + (if p != "" then [p] else [])
  }

  /** The values of the parts that `parse` accepts, in order; the others
      are skipped. */
  function Kept(parse: string -> Option<int>, parts: seq<string>): (r: seq<int>)
    ensures |r| <= |parts|
  {
    if parts == [] then []
    else
      var last := parse(parts[|parts| - 1]);
      Kept(parse, parts[..|parts| - 1]) + (if last.Some? then [last.value] else [])
  }

  /** The ids of the parts that `int()` accepts, in order. */
  function Ids(parts: seq<string>): seq<int> {
    Kept(PyInt, parts)
  }

  /** The loop `for p in parts: try: out.append(int(p)) except ValueError:
      continue`. */
  method ParseIds(parts: seq<string>) returns (out: seq<int>)
    ensures out == Ids(parts)
  {
    out := [];
    for i := 0 to |parts|
      invariant out == Ids(parts[..i])
    {
      assert parts[..i + 1][..i] == parts[..i];
      var v := PyInt(parts[i]);
      if v.Some? {
        out := out + [v.value];
      }
    }
    assert parts[..|parts|] == parts;
  }

  /** `Settings._parse_allowed_users(v)` */
  method ParseAllowedUsers(v: RawUsers) returns (out: seq<int>)
    ensures v.NoValue? || v == Text("") || v.OtherValue? ==> out == []
    ensures v.List? ==> out == v.ids
    ensures v.Text? && v.s != "" ==> out == Ids(Parts(v.s))
  {
    match v
    case NoValue => out := [];
    case Text(s) =>
      if s == "" {
        out := [];
      } else {
        out := ParseIds(Parts(s));
      }
    case List(ids) => out := ids;
    case OtherValue => out := [];
  }

  /** Every value kept is the value of some part. */
  lemma {:induction false} KeptComeFromParts(parse: string -> Option<int>, parts: seq<string>, k: nat)
    requires k < |Kept(parse, parts)|
    ensures exists i :: 0 <= i < |parts| && parse(parts[i]) == Some(Kept(parse, parts)[k])
  {
    var n := |parts| - 1;
    if k < |Kept(parse, parts[..n])| {
      KeptComeFromParts(parse, parts[..n], k);
      var i :| 0 <= i < |parts[..n]| && parse(parts[..n][i]) == Some(Kept(parse, parts[..n])[k]);
      assert parts[i] == parts[..n][i];
    }
  }

  /** Every id the validator yields is the value of some part of the text. */
  lemma {:induction false} IdsComeFromParts(parts: seq<string>, k: nat)
    requires k < |Ids(parts)|
    ensures exists i :: 0 <= i < |parts| && PyInt(parts[i]) == Some(Ids(parts)[k])
  {
    KeptComeFromParts(PyInt, parts, k);
  }

  /** The decimal forms of ids. */
  function Decimals(ids: seq<nat>): (r: seq<string>)
    ensures |r| == |ids|
    ensures forall i :: 0 <= i < |ids| ==> r[i] == NatToString(ids[i])
  {
    if ids == [] then [] else Decimals(ids[..|ids| - 1]) + [NatToString(ids[|ids| - 1])]
  }

  /** Pieces that are non-empty and already stripped pass through. */
  lemma {:induction false} PartsOfStripped(pieces: seq<string>)
    requires forall i :: 0 <= i < |pieces| ==> pieces[i] != "" && Strip(pieces[i]) == pieces[i]
    ensures PartsOf(pieces) == pieces
  {
    if pieces != [] {
      PartsOfStripped(pieces[..|pieces| - 1]);
    }
  }

  lemma {:induction false} PartsOfDecimals(ids: seq<nat>)
    ensures PartsOf(Decimals(ids)) == Decimals(ids)
  {
    var ds := Decimals(ids);
    forall i | 0 <= i < |ds| ensures ds[i] != "" && Strip(ds[i]) == ds[i] {
      assert AllDigits(ds[i]);
      StripNoop(ds[i]);
    }
    PartsOfStripped(ds);
  }

  lemma {:induction false} IdsOfDecimals(ids: seq<nat>)
    ensures Ids(Decimals(ids)) == ids
  {
    if ids != [] {
      var n := |ids| - 1;
      IdsOfDecimals(ids[..n]);
      assert Decimals(ids)[..n] == Decimals(ids[..n]);
      PyIntOfNatToString(ids[n]);
    }
  }

  /** Writing ids as a comma-separated list and parsing it gives them back
      in order. */
  lemma {:induction false} AllowedUsersRoundTrip(ids: seq<nat>)
    requires ids != []
    ensures Ids(Parts(Join(",", Decimals(ids)))) == ids
  {
    var ds := Decimals(ids);
    forall i | 0 <= i < |ds| ensures ',' !in ds[i] {
      assert AllDigits(ds[i]);
    }
    SplitJoin(ds, ',');
    PartsOfDecimals(ids);
    IdsOfDecimals(ids);
  }

  lemma {:induction false} KeptAppend(parse: string -> Option<int>, a: seq<string>, b: seq<string>)
    ensures Kept(parse, a + b) == Kept(parse, a) + Kept(parse, b)
  {
    if b == [] {
      assert a + b == a;
    } else {
      var n := |b| - 1;
      KeptAppend(parse, a, b[..n]);
      assert (a + b)[..|a + b| - 1] == a + b[..n];
      assert (a + b)[|a + b| - 1] == b[n];
    }
  }

  /** A part that `int()` refuses is skipped and the others are kept. */
  lemma {:induction false} SkipsUnparsable(before: seq<string>, bad: string, after: seq<string>)
    requires PyInt(bad).None?
    ensures Ids(before + [bad] + after) == Ids(before + after)
  {
    KeptAppend(PyInt, before + [bad], after);
    KeptAppend(PyInt, before, [bad]);
    KeptAppend(PyInt, before, after);
    assert Kept(PyInt, [bad]) == [] by {
      assert [bad][..0] == [];
    }
  }
}
