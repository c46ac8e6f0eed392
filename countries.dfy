/**
 * The country registry of the backend: name validation and normalisation,
 * and the create / list / delete / update handlers over the `id -> name`
 * table. Each handler answers with a reply whose HTTP status is `Status`.
 */
module Countries {
  import opened Wrappers
  import opened Text
  import Sets

  // ---------------------------------------------------------------------------
  // Names
  // ---------------------------------------------------------------------------

  /** `isValidCountryName`: the name matches `^[a-zA-Z\s]+$`. */
  predicate ValidName(name: string) {
    |name| > 0 && forall i :: 0 <= i < |name| ==> IsAsciiLetter(name[i]) || IsWhitespace(name[i])
  }

  /** First character upper-cased, the rest lower-cased. */
  function Normalize(name: string): (r: string)
    ensures |r| == |name|
    ensures |name| > 0 ==> r[0] == UpperChar(name[0])
    ensures forall i :: 1 <= i < |name| ==> r[i] == LowerChar(name[i])
  {
    if name == [] then [] else [UpperChar(name[0])] + Lower(name[1..])
  }

  /** The form every stored name has: valid and already normalised. */
  predicate Stored(name: string) {
    ValidName(name) && Normalize(name) == name
  }

  /** Two names that differ at most in the case of their letters. */
  predicate SameUpToCase(a: string, b: string) {
    |a| == |b| && forall i :: 0 <= i < |a| ==> LowerChar(a[i]) == LowerChar(b[i])
  }

  lemma NormalizeIdempotent(name: string)
    ensures Normalize(Normalize(name)) == Normalize(name)
  {
  }

  lemma NormalizeKeepsValid(name: string)
    ensures ValidName(name) <==> ValidName(Normalize(name))
  {
    var r := Normalize(name);
    if ValidName(name) {
      forall i | 0 <= i < |r| ensures IsAsciiLetter(r[i]) || IsWhitespace(r[i]) {
      }
    }
    if ValidName(r) {
      forall i | 0 <= i < |name| ensures IsAsciiLetter(name[i]) || IsWhitespace(name[i]) {
        assert IsAsciiLetter(r[i]) || IsWhitespace(r[i]);
      }
    }
  }

  /** Names that differ only in case normalise to the same name, and only those do. */
  lemma NormalizeEqualIffSameUpToCase(a: string, b: string)
    ensures Normalize(a) == Normalize(b) <==> SameUpToCase(a, b)
  {
    if Normalize(a) == Normalize(b) {
      forall i | 0 <= i < |a| ensures LowerChar(a[i]) == LowerChar(b[i]) {
        if i == 0 {
          UpperCharAgreesWithLowerChar(a[0], b[0]);
        } else {
          LowerCharIdempotent(a[i]);
          LowerCharIdempotent(b[i]);
        }
      }
    }
    if SameUpToCase(a, b) {
      if |a| > 0 {
        UpperCharAgreesWithLowerChar(a[0], b[0]);
      }
      assert forall i :: 0 <= i < |a| ==> Normalize(a)[i] == Normalize(b)[i];
    }
  }

  // ---------------------------------------------------------------------------
  // Replies
  // ---------------------------------------------------------------------------

  datatype Failure =
    | NameRequired      // "Country name is required"
    | NameNotLetters    // "Country name must contain only letters ..."
    | NameTaken         // "Country already exists" / "Country name already exists"
    | NotFound          // "Country not found"

  datatype Reply =
    | Created(id: int, name: string)
    | Deleted(id: int)
    | Updated(id: int, name: string)
    | Refused(failure: Failure)

  function Status(reply: Reply): int {
    match reply
    case Created(_, _) => 201
    case Deleted(_) => 200
    case Updated(_, _) => 200
    case Refused(NotFound) => 404
    case Refused(_) => 400
  }

  datatype NameCheck = Normalized(name: string) | Invalid(failure: Failure)

  /**
   * The checks `createCountry` and `updateCountry` share: a missing or empty
   * name, then the letters-and-whitespace format, then normalisation.
   */
  function CheckName(name: Option<string>): (r: NameCheck)
    ensures r.Normalized? <==> name.Some? && ValidName(name.value)
    ensures r.Normalized? ==> r.name == Normalize(name.value) && Stored(r.name)
    ensures name.None? || name == Some("") ==> r == Invalid(NameRequired)
    ensures name.Some? && name.value != "" && !ValidName(name.value) ==> r == Invalid(NameNotLetters)
  {
    match name
    case None => Invalid(NameRequired)
    case Some(s) =>
      if s == "" then Invalid(NameRequired)
      else if !ValidName(s) then Invalid(NameNotLetters)
      else
        NormalizeKeepsValid(s);
        NormalizeIdempotent(s);
        Normalized(Normalize(s))
  }

  /** A name containing a digit or a symbol is refused with 400. */
  lemma NonLetterRefused(name: string, i: int)
    requires 0 <= i < |name| && !IsAsciiLetter(name[i]) && !IsWhitespace(name[i])
    ensures CheckName(Some(name)) == Invalid(NameNotLetters)
    ensures Status(Refused(CheckName(Some(name)).failure)) == 400
  {
  }

  /** `\s` lets a name made of whitespace alone through, unchanged. */
  lemma BlankNameAccepted(name: string)
    requires |name| > 0 && forall i :: 0 <= i < |name| ==> IsWhitespace(name[i])
    ensures CheckName(Some(name)) == Normalized(name)
  {
    assert Normalize(name) == name;
  }

  // ---------------------------------------------------------------------------
  // Ordering of the listing (`order: [['name', 'ASC']]`)
  // ---------------------------------------------------------------------------

  /** Lexicographic order on names, by character code. */
  predicate NameLess(a: string, b: string)
    decreases |a|
  {
    if |a| == 0 then |b| > 0
    else if |b| == 0 then false
    else if a[0] != b[0] then a[0] < b[0]
    else NameLess(a[1..], b[1..])
  }

  lemma {:induction false} NameLessIrreflexive(a: string)
    ensures !NameLess(a, a)
    decreases |a|
  {
    if |a| > 0 {
      NameLessIrreflexive(a[1..]);
    }
  }

  lemma {:induction false} NameLessTransitive(a: string, b: string, c: string)
    requires NameLess(a, b) && NameLess(b, c)
    ensures NameLess(a, c)
    decreases |a|
  {
    if |a| > 0 && a[0] == b[0] && b[0] == c[0] {
      NameLessTransitive(a[1..], b[1..], c[1..]);
    }
  }

  lemma {:induction false} NameLessTotal(a: string, b: string)
    requires a != b
    ensures NameLess(a, b) || NameLess(b, a)
    decreases |a|
  {
    if |a| > 0 && |b| > 0 && a[0] == b[0] {
      assert a == [a[0]] + a[1..] && b == [b[0]] + b[1..];
      NameLessTotal(a[1..], b[1..]);
    }
  }

  datatype Row = Row(id: int, name: string)

  predicate SortedByName(s: seq<Row>) {
    forall i, j :: 0 <= i < j < |s| ==> NameLess(s[i].name, s[j].name)
  }

  /** Places `r` before the first row whose name it precedes. */
  function InsertByName(s: seq<Row>, r: Row): (t: seq<Row>)
    ensures multiset(t) == multiset(s) + multiset{r}
  {
    if s == [] then [r]
    else if NameLess(r.name, s[0].name) then [r] + s
    else
      assert s == [s[0]] + s[1..];
      [s[0]] + InsertByName(s[1..], r)
  }

  lemma {:induction false} InsertByNameSorted(s: seq<Row>, r: Row)
    requires SortedByName(s)
    requires forall i :: 0 <= i < |s| ==> s[i].name != r.name
    ensures SortedByName(InsertByName(s, r))
  {
    if s == [] {
    } else if NameLess(r.name, s[0].name) {
      forall j | 0 < j < |s| ensures NameLess(r.name, s[j].name) {
        NameLessTransitive(r.name, s[0].name, s[j].name);
      }
    } else {
      NameLessTotal(r.name, s[0].name);
      InsertByNameSorted(s[1..], r);
      var rest := InsertByName(s[1..], r);
      var t := [s[0]] + rest;
      forall j | 1 <= j < |t| ensures NameLess(s[0].name, t[j].name) {
        assert t[j] in multiset(rest);
        if t[j] != r {
          assert t[j] in multiset(s[1..]);
          var k :| 0 <= k < |s[1..]| && s[1..][k] == t[j];
          assert s[k + 1] == t[j];
        }
      }
    }
  }

  // ---------------------------------------------------------------------------
  // The table
  // ---------------------------------------------------------------------------

  /** Some row already carries `name` (`Country.findOne({ where: { name } })`). */
  predicate HasName(rows: map<int, string>, name: string) {
    exists id :: id in rows && rows[id] == name
  }

  predicate NamesDistinct(rows: map<int, string>) {
    forall a, b :: a in rows && b in rows && a != b ==> rows[a] != rows[b]
  }

  class CountryTable {
    /** The `countries` table: primary key to name. */
    var rows: map<int, string>
    /** The next auto-increment key. */
    var nextId: int

    ghost predicate Valid()
      reads this
    {
      && (forall id :: id in rows ==> id < nextId)
      && (forall id :: id in rows ==> Stored(rows[id]))
      && NamesDistinct(rows)
    }

    constructor ()
      ensures Valid() && rows == map[] && nextId == 1
    {
      rows := map[];
      nextId := 1;
    }

    /** `createCountry` */
    method Create(name: Option<string>) returns (reply: Reply)
      requires Valid()
      modifies this
      ensures Valid()
      ensures var check := CheckName(name);
        if check.Invalid? then
          reply == Refused(check.failure) && rows == old(rows) && nextId == old(nextId)
        else if HasName(old(rows), check.name) then
          reply == Refused(NameTaken) && rows == old(rows) && nextId == old(nextId)
        else
          && reply == Created(old(nextId), check.name)
          && old(nextId) !in old(rows)
          && rows == old(rows)[old(nextId) := check.name]
          && nextId == old(nextId) + 1
      ensures Status(reply) == 201 || Status(reply) == 400
    {
      var check := CheckName(name);
      if check.Invalid? {
        return Refused(check.failure);
      }
      var normalized := check.name;
      if HasName(rows, normalized) {
        return Refused(NameTaken);
      }
      var id := nextId;
      rows := rows[id := normalized];
      nextId := nextId + 1;
      reply := Created(id, normalized);
    }

    /** `getCountries`: every row, ascending by name. */
    method List() returns (countries: seq<Row>)
      requires Valid()
      ensures SortedByName(countries)
      ensures forall r :: r in countries <==> r.id in rows && rows[r.id] == r.name
      ensures |countries| == |rows|
    {
      countries := [];
      var remaining := rows.Keys;
      while remaining != {}
        invariant remaining <= rows.Keys
        invariant SortedByName(countries)
        invariant forall r :: r in countries <==> r.id in rows.Keys - remaining && rows[r.id] == r.name
        invariant |countries| + |remaining| == |rows|
        decreases |remaining|
      {
        if forall k :: k !in remaining {
          Sets.NoMemberMeansEmpty(remaining);
          assert false;
        }
        var key :| key in remaining;
        var row := Row(key, rows[key]);
        forall i | 0 <= i < |countries| ensures countries[i].name != row.name {
          assert countries[i] in countries;
        }
        InsertByNameSorted(countries, row);
        countries := InsertByName(countries, row);
        assert forall r :: r in countries <==> r in multiset(countries);
        remaining := remaining - {key};
      }
    }

    /** `deleteCountry` */
    method Delete(id: int) returns (reply: Reply)
      requires Valid()
      modifies this
      ensures Valid() && nextId == old(nextId)
      ensures id !in old(rows) ==> reply == Refused(NotFound) && rows == old(rows)
      ensures id in old(rows) ==> reply == Deleted(id) && rows == old(rows) - {id}
    {
      if id !in rows {
        return Refused(NotFound);
      }
      rows := rows - {id};
      reply := Deleted(id);
    }

    /** `updateCountry` */
    method Update(id: int, name: Option<string>) returns (reply: Reply)
      requires Valid()
      modifies this
      ensures Valid() && nextId == old(nextId)
      ensures var check := CheckName(name);
        if check.Invalid? then
          reply == Refused(check.failure) && rows == old(rows)
        else if id !in old(rows) then
          reply == Refused(NotFound) && rows == old(rows)
        else if exists other :: other in old(rows) && other != id && old(rows)[other] == check.name then
          reply == Refused(NameTaken) && rows == old(rows)
        else
          reply == Updated(id, check.name) && rows == old(rows)[id := check.name]
    {
      var check := CheckName(name);
      if check.Invalid? {
        return Refused(check.failure);
      }
      var normalized := check.name;
      if id !in rows {
        return Refused(NotFound);
      }
      if HasName(rows, normalized) {
        var holder :| holder in rows && rows[holder] == normalized;
        if holder != id {
          return Refused(NameTaken);
        }
      }
      rows := rows[id := normalized];
      reply := Updated(id, normalized);
    }
  }
}
