/**
 * Matching spreadsheet headers against the expected column aliases:
 * `normalize`, `find_col`, and the loops that resolve the required and
 * optional columns.
 *
 * The matching logic is stated on lists of normal forms ("keys"): the
 * keys of the headers and the keys of the candidates. `Normalize` only
 * produces them.
 */
module Columns {
  import opened Text
  import opened Cells

  /** `normalize`: trim, then lower-case. */
  function Normalize(s: string): (r: string)
    ensures IsStripped(r)
    ensures |r| <= |s|
    ensures forall i | 0 <= i < |r| :: !('A' <= r[i] <= 'Z')
  {
    var t := Strip(s);
    var r := Lower(t);
    assert IsStripped(r) by {
      if r != [] {
        LowerCharSpace(t[0]);
        LowerCharSpace(t[|t| - 1]);
      }
    }
    r
  }

  /** Lowering a character does not make it white space or stop it being white space. */
  lemma LowerCharSpace(c: char)
    ensures IsSpace(LowerChar(c)) <==> IsSpace(c)
  {
  }

  /** Normalising twice is normalising once. */
  lemma NormalizeIdempotent(s: string)
    ensures Normalize(Normalize(s)) == Normalize(s)
  {
    var n := Normalize(s);
    StripFixedPoint(n);
    LowerIdempotent(Strip(s));
  }

  /** The normal form of each string of a list, in order. */
  function NormalForms(xs: seq<string>): (ks: seq<string>)
    ensures |ks| == |xs|
  {
    seq(|xs|, i requires 0 <= i < |xs| => Normalize(xs[i]))
  }

  /** `keys[i]` is the last occurrence of `key` in `keys`. */
  predicate IsLastWith(keys: seq<string>, key: string, i: int) {
    0 <= i < |keys| && keys[i] == key
    && forall j | i < j < |keys| :: keys[j] != key
  }

  /** The last occurrence of a key stays the last when another key follows. */
  lemma LastWithSnoc(init: seq<string>, last: string, key: string, i: int)
    requires IsLastWith(init, key, i) && key != last
    ensures IsLastWith(init + [last], key, i)
  {
    var keys := init + [last];
    forall j | i < j < |keys|
      ensures keys[j] != key
    {
      if j < |init| { assert keys[j] == init[j]; }
    }
  }

  /** The last occurrence of a key is unique. */
  lemma LastWithUnique(keys: seq<string>, key: string, i: int, j: int)
    requires IsLastWith(keys, key, i) && IsLastWith(keys, key, j)
    ensures i == j
  {
  }

  /**
   * The dictionary `{keys[i]: headers[i] for each i}`: a key is present
   * exactly when it occurs, and maps to the header at its last
   * occurrence, since later entries overwrite earlier ones.
   */
  function Index(keys: seq<string>, headers: seq<string>): (m: map<string, string>)
    requires |keys| == |headers|
    ensures forall key :: key in m <==> key in keys
    ensures forall key | key in m :: exists i :: IsLastWith(keys, key, i) && m[key] == headers[i]
  {
    if keys == [] then map[]
    else
      var n := |keys| - 1;
      var init := keys[..n];
      assert keys == init + [keys[n]];
      var m := Index(init, headers[..n])[keys[n] := headers[n]];
      forall key | key in m
        ensures exists i :: IsLastWith(keys, key, i) && m[key] == headers[i]
      {
        if key == keys[n] {
          assert IsLastWith(keys, key, n);
        } else {
          var i :| IsLastWith(init, key, i) && Index(init, headers[..n])[key] == headers[..n][i];
          LastWithSnoc(init, keys[n], key, i);
        }
      }
      m
  }

  /** One more header enters the dictionary last, overwriting its key. */
  lemma IndexSnoc(keys: seq<string>, headers: seq<string>, i: nat)
    requires |keys| == |headers| && i < |keys|
    ensures Index(keys[..i + 1], headers[..i + 1]) == Index(keys[..i], headers[..i])[keys[i] := headers[i]]
  {
    assert keys[..i + 1][..i] == keys[..i];
    assert headers[..i + 1][..i] == headers[..i];
  }

  /** `{normalize(c): c for c in df.columns}`. */
  function HeaderIndex(headers: seq<string>): map<string, string>
  {
    Index(NormalForms(headers), headers)
  }

  /** Position `j` holds the first key of `ks` that occurs in `keys`. */
  predicate IsFirstIn(keys: seq<string>, ks: seq<string>, j: int) {
    0 <= j < |ks| && ks[j] in keys
    && forall k | 0 <= k < j :: ks[k] !in keys
  }

  /** Some key of `ks` occurs in `keys`. */
  predicate AnyIn(keys: seq<string>, ks: seq<string>) {
    exists j | 0 <= j < |ks| :: ks[j] in keys
  }

  /**
   * The answer for header keys `keys`, headers `headers` and candidate
   * keys `ks`: nothing when no candidate key occurs; otherwise the header
   * at the last occurrence of the first candidate key that occurs.
   */
  ghost predicate Picks(keys: seq<string>, headers: seq<string>, ks: seq<string>, r: Option<string>)
    requires |keys| == |headers|
  {
    match r
    case None => !AnyIn(keys, ks)
    case Some(h) => exists j, i :: IsFirstIn(keys, ks, j) && IsLastWith(keys, ks[j], i) && h == headers[i]
  }

  /** One answer at most meets the description. */
  lemma PicksUnique(keys: seq<string>, headers: seq<string>, ks: seq<string>, r1: Option<string>, r2: Option<string>)
    requires |keys| == |headers|
    requires Picks(keys, headers, ks, r1) && Picks(keys, headers, ks, r2)
    ensures r1 == r2
  {
    PicksSomeIff(keys, headers, ks, r1);
    PicksSomeIff(keys, headers, ks, r2);
    if r1.Some? {
      var j1, i1 :| IsFirstIn(keys, ks, j1) && IsLastWith(keys, ks[j1], i1) && r1.value == headers[i1];
      var j2, i2 :| IsFirstIn(keys, ks, j2) && IsLastWith(keys, ks[j2], i2) && r2.value == headers[i2];
      assert j1 == j2;
      LastWithUnique(keys, ks[j1], i1, i2);
    }
  }

  /** The answer is a header exactly when some candidate key occurs among the header keys. */
  lemma PicksSomeIff(keys: seq<string>, headers: seq<string>, ks: seq<string>, r: Option<string>)
    requires |keys| == |headers| && Picks(keys, headers, ks, r)
    ensures r.Some? <==> AnyIn(keys, ks)
  {
    if r.Some? {
      var j, i :| IsFirstIn(keys, ks, j) && IsLastWith(keys, ks[j], i) && r.value == headers[i];
    }
  }

  /**
   * What `find_col` returns: the header whose normal form is that of the
   * earliest candidate matching any header, the last such header when
   * several match, and nothing when no candidate matches.
   */
  ghost predicate Finds(headers: seq<string>, candidates: seq<string>, r: Option<string>) {
    Picks(NormalForms(headers), headers, NormalForms(candidates), r)
  }

  /** `Finds` describes one answer: `find_col` is a function of headers and candidates. */
  lemma FindsUnique(headers: seq<string>, candidates: seq<string>, r1: Option<string>, r2: Option<string>)
    requires Finds(headers, candidates, r1) && Finds(headers, candidates, r2)
    ensures r1 == r2
  {
    PicksUnique(NormalForms(headers), headers, NormalForms(candidates), r1, r2);
  }

  /** The candidate loop of `find_col` over a header index `cols` and the candidates' keys. */
  function Lookup(cols: map<string, string>, ks: seq<string>): Option<string>
  {
    if ks == [] then None
    else if ks[0] in cols then Some(cols[ks[0]])
    else Lookup(cols, ks[1..])
  }

  /** The answer of `find_col` as a recursive definition. */
  function ColumnFor(headers: seq<string>, candidates: seq<string>): Option<string>
  {
    Lookup(HeaderIndex(headers), NormalForms(candidates))
  }

  /** Looking the candidate keys up in the index meets the description. */
  lemma {:induction false} LookupPicks(keys: seq<string>, headers: seq<string>, ks: seq<string>)
    requires |keys| == |headers|
    ensures Picks(keys, headers, ks, Lookup(Index(keys, headers), ks))
    decreases |ks|
  {
    if ks != [] {
      var m := Index(keys, headers);
      if ks[0] in m {
        var i :| IsLastWith(keys, ks[0], i) && m[ks[0]] == headers[i];
        assert IsFirstIn(keys, ks, 0);
      } else {
        var rest := ks[1..];
        LookupPicks(keys, headers, rest);
        var r := Lookup(m, rest);
        if r.Some? {
          var j, i :| IsFirstIn(keys, rest, j) && IsLastWith(keys, rest[j], i) && r.value == headers[i];
          assert rest[j] == ks[j + 1];
          forall k | 0 <= k < j + 1
            ensures ks[k] !in keys
          {
            if k > 0 { assert ks[k] == rest[k - 1]; }
          }
          assert IsFirstIn(keys, ks, j + 1);
        } else {
          forall k | 0 <= k < |ks|
            ensures ks[k] !in keys
          {
            if k > 0 { assert ks[k] == rest[k - 1]; }
          }
        }
      }
    }
  }

  /**
   * The recursive definition meets the description: `find_col` returns the
   * last header matching the first candidate that matches, or nothing.
   */
  lemma ColumnForFinds(headers: seq<string>, candidates: seq<string>)
    ensures Finds(headers, candidates, ColumnFor(headers, candidates))
  {
    LookupPicks(NormalForms(headers), headers, NormalForms(candidates));
  }

  /** The dictionary comprehension of `find_col`, one header at a time. */
  method IndexHeaders(headers: seq<string>) returns (cols: map<string, string>)
    ensures cols == HeaderIndex(headers)
  {
    ghost var keys := NormalForms(headers);
    cols := map[];
    for i := 0 to |headers|
      invariant cols == Index(keys[..i], headers[..i])
    {
      IndexSnoc(keys, headers, i);
      cols := cols[Normalize(headers[i]) := headers[i]];
    }
    assert keys[..|headers|] == keys && headers[..|headers|] == headers;
  }

  /** `find_col`: index the headers by normal form, then try the candidates in order. */
  method FindCol(headers: seq<string>, candidates: seq<string>) returns (r: Option<string>)
    ensures r == ColumnFor(headers, candidates)
    ensures Finds(headers, candidates, r)
  {
    ColumnForFinds(headers, candidates);
    ghost var ks := NormalForms(candidates);
    var cols := IndexHeaders(headers);
    for j := 0 to |candidates|
      invariant Lookup(cols, ks[j..]) == Lookup(cols, ks)
    {
      assert ks[j..][1..] == ks[j + 1..];
      var key := Normalize(candidates[j]);
      if key in cols {
        return Some(cols[key]);
      }
    }
    return None;
  }

  /** A column catalogue: each logical key with its header aliases, in order. */
  type Catalog = seq<(string, seq<string>)>

  /** The keys of a catalogue are distinct, as the keys of a Python dict are. */
  predicate KeysDistinct(c: Catalog) {
    forall a, b | 0 <= a < b < |c| :: c[a].0 != c[b].0
  }

  /** No key is in both catalogues. */
  predicate KeysDisjoint(c: Catalog, d: Catalog) {
    forall a, b | 0 <= a < |c| && 0 <= b < |d| :: c[a].0 != d[b].0
  }

  /** Some alias of the catalogue entry has the normal form of some header. */
  predicate Resolvable(headers: seq<string>, aliases: seq<string>) {
    AnyIn(NormalForms(headers), NormalForms(aliases))
  }

  /** A catalogue entry resolves exactly when one of its aliases matches a header. */
  lemma ColumnForSomeIff(headers: seq<string>, aliases: seq<string>)
    ensures ColumnFor(headers, aliases).Some? <==> Resolvable(headers, aliases)
  {
    ColumnForFinds(headers, aliases);
    PicksSomeIff(NormalForms(headers), headers, NormalForms(aliases), ColumnFor(headers, aliases));
  }

  /**
   * `find_col(df, ·)` for one table: the answer for each alias list. The
   * resolution loops see no more of `find_col` than this function.
   */
  function FindIn(headers: seq<string>): seq<string> -> Option<string>
  {
    aliases => ColumnFor(headers, aliases)
  }

  /** The keys of the catalogue that `find` does not resolve, in catalogue order. */
  function Unresolved(find: seq<string> -> Option<string>, c: Catalog): seq<string>
  {
    if c == [] then []
    else
      var rest := Unresolved(find, c[..|c| - 1]);
      if find(c[|c| - 1].1).Some? then rest else rest + [c[|c| - 1].0]
  }

  /** A key is reported missing exactly when an entry with that key does not resolve. */
  lemma {:induction false} UnresolvedMembers(find: seq<string> -> Option<string>, c: Catalog, k: string)
    ensures k in Unresolved(find, c) <==> exists a | 0 <= a < |c| :: c[a].0 == k && find(c[a].1).None?
  {
    if c != [] {
      var init := c[..|c| - 1];
      UnresolvedMembers(find, init, k);
      assert forall a | 0 <= a < |init| :: init[a] == c[a];
    }
  }

  /** The required columns: key and accepted headers. */
  const RequiredColumns: Catalog := [
    ("name", ["الاسم", "اسم", "Name", "name"]),
    ("id", ["رقم الهوية", "هوية رقم", "الهوية", "ID", "id"]),
    ("nationality", ["الجنسية", "Nationality", "nationality"]),
    ("address", ["العنوان", "Address", "address"]),
    ("city", ["المدينة", "المدينه", "City", "city"]),
    ("email", ["البريد الإلكتروني", "البريد الالكتروني", "Email", "email"]),
    ("mobile", ["الجوال", "رقم الجوال", "Mobile", "mobile"]),
    ("birth_date", ["تاريخ الميلاد", "Birth Date", "birth_date"])
  ]

  /** The optional columns. */
  const OptionalColumns: Catalog := [
    ("birth_place", ["مكان الميلاد", "Birth Place", "birth_place"]),
    ("expiry_date", ["تاريخ الانتهاء", "تاريخ الإنتهاء", "Expiry Date", "expiry_date"]),
    ("marital_status", ["الحالة الاجتماعية", "الحاله الاجتماعيه", "Marital Status", "marital_status"])
  ]

  /** The two catalogues are dictionaries with no key in common. */
  lemma CatalogsWellFormed()
    ensures KeysDistinct(RequiredColumns) && KeysDistinct(OptionalColumns)
    ensures KeysDisjoint(RequiredColumns, OptionalColumns)
  {
  }

  /**
   * The dictionary the resolution loops fill from one catalogue: each key
   * whose aliases resolve, mapped to the header `find` returns.
   */
  function Resolved(find: seq<string> -> Option<string>, c: Catalog): map<string, string>
  {
    if c == [] then map[]
    else
      var m := Resolved(find, c[..|c| - 1]);
      match find(c[|c| - 1].1)
      case Some(col) => m[c[|c| - 1].0 := col]
      case None => m
  }

  /** One more entry of the catalogue adds its column, when it resolves, or its key to the missing ones. */
  lemma ResolvedStep(find: seq<string> -> Option<string>, c: Catalog, a: nat)
    requires a < |c|
    ensures Resolved(find, c[..a + 1])
            == match find(c[a].1)
               case Some(col) => Resolved(find, c[..a])[c[a].0 := col]
               case None => Resolved(find, c[..a])
    ensures Unresolved(find, c[..a + 1])
            == if find(c[a].1).Some? then Unresolved(find, c[..a])
               else Unresolved(find, c[..a]) + [c[a].0]
  {
    assert c[..a + 1][..a] == c[..a];
    assert c[..a + 1][a] == c[a];
  }

  /** Adding to the right operand of a union is adding to the union. */
  lemma UnionUpdate(m: map<string, string>, n: map<string, string>, k: string, v: string)
    ensures (m + n)[k := v] == m + n[k := v]
  {
  }

  /** A key is in the resolved dictionary exactly when some entry with that key resolves. */
  lemma {:induction false} ResolvedMembers(find: seq<string> -> Option<string>, c: Catalog, k: string)
    ensures k in Resolved(find, c) <==> exists a | 0 <= a < |c| :: c[a].0 == k && find(c[a].1).Some?
  {
    if c != [] {
      var init := c[..|c| - 1];
      ResolvedMembers(find, init, k);
      assert forall a | 0 <= a < |init| :: init[a] == c[a];
    }
  }

  /** With distinct keys, each resolved key maps to the column `find` returned for it. */
  lemma {:induction false} ResolvedValue(find: seq<string> -> Option<string>, c: Catalog, a: nat)
    requires KeysDistinct(c) && a < |c| && c[a].0 in Resolved(find, c)
    ensures find(c[a].1) == Some(Resolved(find, c)[c[a].0])
  {
    var init := c[..|c| - 1];
    var last := c[|c| - 1];
    assert forall x | 0 <= x < |init| :: init[x] == c[x];
    if a < |init| {
      assert c[a].0 in Resolved(find, init);
      ResolvedValue(find, init, a);
    } else {
      ResolvedMembers(find, init, last.0);
    }
  }

  /** Why loading stops. */
  datatype Failure = MissingColumns(keys: seq<string>) | NoNamedRows

  datatype Outcome<T> = Success(value: T) | Failed(error: Failure)

  /**
   * What the resolution block ends with: the unresolved required keys, if
   * any, or else the required and then the optional resolved columns.
   */
  function Resolution(headers: seq<string>, required: Catalog, optional: Catalog): Outcome<map<string, string>>
  {
    var find := FindIn(headers);
    var missing := Unresolved(find, required);
    if missing != [] then Failed(MissingColumns(missing))
    else Success(Resolved(find, required) + Resolved(find, optional))
  }

  /**
   * Processing stops exactly when some required key has no matching
   * header (MissingKeysNamed says which keys it names); otherwise every required key is resolved to
   * the header `find_col` picks, and an optional key is present exactly
   * when one of its aliases matches.
   */
  lemma ResolutionMeaning(headers: seq<string>, required: Catalog, optional: Catalog)
    requires KeysDistinct(required) && KeysDistinct(optional) && KeysDisjoint(required, optional)
    ensures var res := Resolution(headers, required, optional);
            (res.Failed? <==> exists a | 0 <= a < |required| :: !Resolvable(headers, required[a].1))
            && (res.Success? ==> forall a | 0 <= a < |required| ::
                  required[a].0 in res.value && Finds(headers, required[a].1, Some(res.value[required[a].0])))
            && (res.Success? ==> forall a | 0 <= a < |optional| ::
                  (optional[a].0 in res.value <==> Resolvable(headers, optional[a].1))
                  && (optional[a].0 in res.value ==> Finds(headers, optional[a].1, Some(res.value[optional[a].0]))))
  {
    var find := FindIn(headers);
    var res := Resolution(headers, required, optional);
    var missing := Unresolved(find, required);
    if exists a | 0 <= a < |required| :: !Resolvable(headers, required[a].1) {
      var a :| 0 <= a < |required| && !Resolvable(headers, required[a].1);
      ColumnForSomeIff(headers, required[a].1);
      UnresolvedMembers(find, required, required[a].0);
      assert required[a].0 in missing;
    } else {
      forall a | 0 <= a < |required|
        ensures find(required[a].1).Some?
      {
        ColumnForSomeIff(headers, required[a].1);
      }
      var k := if missing == [] then "" else missing[0];
      UnresolvedMembers(find, required, k);
      assert res.value == Resolved(find, required) + Resolved(find, optional);
      forall a | 0 <= a < |required|
        ensures required[a].0 in res.value && Finds(headers, required[a].1, Some(res.value[required[a].0]))
      {
        EntryResolution(headers, required, a);
        ResolvedMembers(find, optional, required[a].0);
      }
      forall a | 0 <= a < |optional|
        ensures (optional[a].0 in res.value <==> Resolvable(headers, optional[a].1))
                && (optional[a].0 in res.value ==> Finds(headers, optional[a].1, Some(res.value[optional[a].0])))
      {
        EntryResolution(headers, optional, a);
        ResolvedMembers(find, required, optional[a].0);
      }
    }
  }

  /**
   * When processing stops, the keys it names are exactly the required
   * keys with an entry none of whose aliases matches a header.
   */
  lemma MissingKeysNamed(headers: seq<string>, required: Catalog, optional: Catalog)
    ensures var res := Resolution(headers, required, optional);
            res.Failed? ==>
              res.error.MissingColumns?
              && forall k :: k in res.error.keys <==>
                   exists a | 0 <= a < |required| :: required[a].0 == k && !Resolvable(headers, required[a].1)
  {
    var find := FindIn(headers);
    forall a | 0 <= a < |required|
      ensures find(required[a].1).None? <==> !Resolvable(headers, required[a].1)
    {
      ColumnForSomeIff(headers, required[a].1);
    }
    forall k
      ensures k in Unresolved(find, required) <==>
                exists a | 0 <= a < |required| :: required[a].0 == k && !Resolvable(headers, required[a].1)
    {
      UnresolvedMembers(find, required, k);
    }
  }

  /**
   * In a catalogue with distinct keys, an entry's key is resolved exactly
   * when one of its aliases matches, and then to the column `find_col` picks.
   */
  lemma EntryResolution(headers: seq<string>, c: Catalog, a: nat)
    requires KeysDistinct(c) && a < |c|
    ensures var m := Resolved(FindIn(headers), c);
            (c[a].0 in m <==> Resolvable(headers, c[a].1))
            && (c[a].0 in m ==> Finds(headers, c[a].1, Some(m[c[a].0])))
  {
    var find := FindIn(headers);
    ColumnForSomeIff(headers, c[a].1);
    ResolvedMembers(find, c, c[a].0);
    if c[a].0 in Resolved(find, c) {
      ResolvedValue(find, c, a);
      ColumnForFinds(headers, c[a].1);
    }
  }

  /**
   * The loop over the required columns: each key goes to the resolved
   * dictionary when `find_col` finds its column, to the missing list
   * otherwise.
   */
  method ResolveRequired(headers: seq<string>, required: Catalog)
    returns (resolved: map<string, string>, missing: seq<string>)
    ensures resolved == Resolved(FindIn(headers), required)
    ensures missing == Unresolved(FindIn(headers), required)
  {
    ghost var find := FindIn(headers);
    resolved, missing := map[], [];
    for a := 0 to |required|
      invariant missing == Unresolved(find, required[..a])
      invariant resolved == Resolved(find, required[..a])
    {
      ResolvedStep(find, required, a);
      var col := FindCol(headers, required[a].1);
      assert col == find(required[a].1);
      if col.None? {
        missing := missing + [required[a].0];
      } else {
        resolved := resolved[required[a].0 := col.value];
      }
    }
    assert required[..|required|] == required;
  }

  /** The loop over the optional columns: each one `find_col` finds is added to `resolved`. */
  method AddOptional(headers: seq<string>, optional: Catalog, base: map<string, string>)
    returns (resolved: map<string, string>)
    ensures resolved == base + Resolved(FindIn(headers), optional)
  {
    ghost var find := FindIn(headers);
    resolved := base;
    for a := 0 to |optional|
      invariant resolved == base + Resolved(find, optional[..a])
    {
      ResolvedStep(find, optional, a);
      var col := FindCol(headers, optional[a].1);
      assert col == find(optional[a].1);
      if col.Some? {
        UnionUpdate(base, Resolved(find, optional[..a]), optional[a].0, col.value);
        resolved := resolved[optional[a].0 := col.value];
      }
    }
    assert optional[..|optional|] == optional;
  }

  /**
   * The column-resolution block: the required columns first, stopping
   * with the missing keys if there are any, then the optional columns.
   */
  method ResolveColumns(headers: seq<string>, required: Catalog, optional: Catalog)
    returns (res: Outcome<map<string, string>>)
    ensures res == Resolution(headers, required, optional)
  {
    var resolved, missing := ResolveRequired(headers, required);
    if missing != [] {
      return Failed(MissingColumns(missing));
    }
    resolved := AddOptional(headers, optional, resolved);
    return Success(resolved);
  }
}
