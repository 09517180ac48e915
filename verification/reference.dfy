/**
  The region map of the symbiotic model: every FAOSTAT country code is labelled
  ROW (rest of world), Europe or Brazil, the three regions the legume model
  distinguishes.
 */
module Reference {
  import opened Wrappers
  import opened Table

  datatype Region = ROW | Europe | Brazil

  /** One row of the FAOSTAT country list, indexed by its country code. */
  datatype Country = Country(code: int, name: string)

  /** One row of the FAOSTAT country-group table: a country's membership of a group. */
  datatype GroupMember = GroupMember(group: string, countryCode: int, country: string)

  /** The codes of the country list. */
  function CountryCodes(countries: seq<Country>): set<int>
  {
    set c | c in countries :: c.code
  }

  /** The codes counted as European: members of the group "Europe", and the aggregate named "Europe". */
  function EuropeCodes(groups: seq<GroupMember>): set<int>
  {
    set g | g in groups && (g.group == "Europe" || g.country == "Europe") :: g.countryCode
  }

  /** The codes of the rows named `name`, in list order. */
  function CodesNamed(countries: seq<Country>, name: string): seq<int>
  {
    if |countries| == 0 then []
    else (if countries[0].name == name then [countries[0].code] else []) + CodesNamed(countries[1..], name)
  }

  /** Row `i` is the one and only row of the list named `name`. */
  predicate OnlyNamed(countries: seq<Country>, name: string, i: int)
  {
    && 0 <= i < |countries|
    && countries[i].name == name
    && forall j :: 0 <= j < |countries| && countries[j].name == name ==> j == i
  }

  /** `code` is the code of some row named "Brazil". */
  predicate IsBrazilCode(countries: seq<Country>, code: int)
  {
    exists i :: 0 <= i < |countries| && countries[i].name == "Brazil" && countries[i].code == code
  }

  lemma {:induction false} NoneNamed(countries: seq<Country>, name: string)
    ensures |CodesNamed(countries, name)| == 0 <==> forall i :: 0 <= i < |countries| ==> countries[i].name != name
  {
    if |countries| > 0 {
      var rest := countries[1..];
      NoneNamed(rest, name);
      if countries[0].name != name {
        if exists i :: 0 <= i < |countries| && countries[i].name == name {
          var i :| 0 <= i < |countries| && countries[i].name == name;
          assert rest[i - 1].name == name;
        }
      } else {
        assert |CodesNamed(countries, name)| == 1 + |CodesNamed(rest, name)|;
      }
    }
  }

  /** Exactly one code is collected precisely when exactly one row carries the name. */
  lemma {:induction false} OneNamed(countries: seq<Country>, name: string)
    ensures |CodesNamed(countries, name)| == 1 <==> exists i :: OnlyNamed(countries, name, i)
    ensures |CodesNamed(countries, name)| == 1 ==>
      exists i :: OnlyNamed(countries, name, i) && countries[i].code == CodesNamed(countries, name)[0]
  {
    if |countries| > 0 {
      var rest := countries[1..];
      OneNamed(rest, name);
      NoneNamed(rest, name);
      if countries[0].name == name {
        assert CodesNamed(countries, name) == [countries[0].code] + CodesNamed(rest, name);
        if |CodesNamed(rest, name)| == 0 {
          assert OnlyNamed(countries, name, 0);
        } else {
          var j :| 0 <= j < |rest| && rest[j].name == name;
          assert countries[j + 1].name == name;
          assert !OnlyNamed(countries, name, 0);
        }
      } else {
        assert CodesNamed(countries, name) == CodesNamed(rest, name);
        if exists i :: OnlyNamed(countries, name, i) {
          var i :| OnlyNamed(countries, name, i);
          assert i >= 1;
          forall j | 0 <= j < |rest| && rest[j].name == name
            ensures j == i - 1
          {
            assert countries[j + 1].name == name;
          }
          assert OnlyNamed(rest, name, i - 1);
        }
        if exists i :: OnlyNamed(rest, name, i) {
          var i :| OnlyNamed(rest, name, i);
          forall j | 0 <= j < |countries| && countries[j].name == name
            ensures j == i + 1
          {
            assert j > 0;
            assert rest[j - 1].name == name;
          }
          assert OnlyNamed(countries, name, i + 1);
        }
      }
    }
  }

  /**
    The code of Brazil, obtained by unpacking the rows named "Brazil" into a
    single code: any other number of such rows is fatal.
   */
  function BrazilCode(countries: seq<Country>): (r: Result<int, Error>)
    ensures r.Success? <==> exists i :: OnlyNamed(countries, "Brazil", i)
    ensures r.Success? ==> exists i :: OnlyNamed(countries, "Brazil", i) && countries[i].code == r.value
    ensures r.Failure? ==> r.error == MissingReferenceData
  {
    var codes := CodesNamed(countries, "Brazil");
    OneNamed(countries, "Brazil");
    if |codes| == 1 then Success(codes[0]) else Failure(MissingReferenceData)
  }

  /** Series.update: labels already in `m` that `u` mentions take `u`'s value; other labels of `u` are ignored. */
  function Update<K, V>(m: map<K, V>, u: map<K, V>): map<K, V>
  {
    map k | k in m :: if k in u then u[k] else m[k]
  }

  /**
    The region of every listed country: ROW by default, then Europe for the
    European codes, then Brazil for Brazil's code, each step overriding the previous.
   */
  function BuildRegions(countries: seq<Country>, groups: seq<GroupMember>): (r: Result<map<int, Region>, Error>)
    ensures r.Success? <==> exists i :: OnlyNamed(countries, "Brazil", i)
    ensures r.Failure? ==> r.error == MissingReferenceData
    ensures r.Success? ==> r.value.Keys == CountryCodes(countries)
    ensures r.Success? ==> forall c | c in r.value ::
              && (r.value[c] == Brazil <==> IsBrazilCode(countries, c))
              && (r.value[c] == Europe <==> c in EuropeCodes(groups) && !IsBrazilCode(countries, c))
              && (r.value[c] == ROW <==> c !in EuropeCodes(groups) && !IsBrazilCode(countries, c))
  {
    match BrazilCode(countries)
    case Failure(e) => Failure(e)
    case Success(brazil) =>
      var base := map c | c in CountryCodes(countries) :: ROW;
      var europe := map c | c in EuropeCodes(groups) :: Europe;
      var regions := Update(Update(base, europe), map[brazil := Brazil]);
      BrazilCodeUnique(countries, brazil);
      Success(regions)
  }

  /** Once Brazil's row is the only one of its name, its code is the only Brazil code. */
  lemma BrazilCodeUnique(countries: seq<Country>, brazil: int)
    requires exists i :: OnlyNamed(countries, "Brazil", i) && countries[i].code == brazil
    ensures forall c :: IsBrazilCode(countries, c) <==> c == brazil
  {
    var i :| OnlyNamed(countries, "Brazil", i) && countries[i].code == brazil;
    assert IsBrazilCode(countries, brazil);
  }
}
