/** The tables of identifiers that the log explainer collects from logs (translate.go). */
module Translations {

  datatype Option<+T> = None | Some(value: T)

  /** Instants are integers: only their order is ever used. */
  type Time = int

  datatype TranslationUnit = TranslationUnit(value: string, timestamp: Time)

  datatype TranslationsDB = TranslationsDB(
    hashToIP: map<string, TranslationUnit>,
    hashToNodeNames: map<string, seq<TranslationUnit>>,
    ipToNodeNames: map<string, seq<TranslationUnit>>,
    ipToMethods: map<string, seq<TranslationUnit>>)

  /** The history of one key after one more fact: a repeated value only moves the instant back. */
  function Upsert(units: seq<TranslationUnit>, tu: TranslationUnit): seq<TranslationUnit> {
    if units == [] || units[|units| - 1].value != tu.value then units + [tu]
    else if units[|units| - 1].timestamp > tu.timestamp then
      units[|units| - 1 := units[|units| - 1].(timestamp := tu.timestamp)]
    else units
  }

  function History(table: map<string, seq<TranslationUnit>>, key: string): seq<TranslationUnit> {
    if key in table then table[key] else []
  }

  /** The string up to its first dot. */
  function BeforeDot(s: string): (before: string)
    ensures before <= s && '.' !in before
    ensures |before| < |s| ==> s[|before|] == '.'
  {
    if s == "" || s[0] == '.' then "" else
      assert s == [s[0]] + s[1..];
      [s[0]] + BeforeDot(s[1..])
  }

  /** A node name without its domain, unless it is short enough or an address. */
  function ShortNodeName(s: string, isIPv4: string -> bool): string {
    if |s| < 10 || isIPv4(s) then s else BeforeDot(s)
  }

  lemma {:induction false} NoDotStays(s: string)
    requires '.' !in s
    ensures BeforeDot(s) == s
  {
    if s != "" {
      NoDotStays(s[1..]);
    }
  }

  /** The whole name if it is short, an address or without a dot, otherwise all of it before the first dot. */
  ghost predicate IsShortName(short: string, name: string, isIPv4: string -> bool) {
    && short <= name
    && if |name| < 10 || isIPv4(name) || '.' !in name then short == name
       else '.' !in short && |short| < |name| && name[|short|] == '.'
  }

  /** A name is shortened once and for all, so the same node is always found under the same name. */
  lemma ShortNameStays(s: string, isIPv4: string -> bool)
    ensures IsShortName(ShortNodeName(s, isIPv4), s, isIPv4)
    ensures ShortNodeName(ShortNodeName(s, isIPv4), isIPv4) == ShortNodeName(s, isIPv4)
  {
    NoDotStays(BeforeDot(s));
    if '.' !in s {
      NoDotStays(s);
    }
  }

  /** A history that ends with a fact, known since `ts` or earlier. */
  ghost predicate EndsWith(units: seq<TranslationUnit>, value: string, ts: Time) {
    units != [] && units[|units|-1].value == value && units[|units|-1].timestamp <= ts
  }

  lemma UpsertEnds(units: seq<TranslationUnit>, value: string, ts: Time)
    ensures EndsWith(Upsert(units, TranslationUnit(value, ts)), value, ts)
  {
  }

  /** The global `db`. */
  class Tables {
    const isIPv4: string -> bool
    var hashToIP: map<string, TranslationUnit>
    var hashToNodeNames: map<string, seq<TranslationUnit>>
    var ipToNodeNames: map<string, seq<TranslationUnit>>
    var ipToMethods: map<string, seq<TranslationUnit>>

    function Contents(): TranslationsDB
      reads this
    {
      TranslationsDB(hashToIP, hashToNodeNames, ipToNodeNames, ipToMethods)
    }

    constructor (isIPv4: string -> bool)
      ensures Contents() == TranslationsDB(map[], map[], map[], map[]) && this.isIPv4 == isIPv4
    {
      this.isIPv4 := isIPv4;
      hashToIP, hashToNodeNames, ipToNodeNames, ipToMethods := map[], map[], map[], map[];
    }

    method AddHashToIP(hash: string, ip: string, ts: Time)
      modifies this
      ensures hash in hashToIP
      ensures hashToIP[hash] ==
        if hash !in old(hashToIP) then TranslationUnit(ip, ts)
        else if old(hashToIP[hash]).timestamp > ts then TranslationUnit(old(hashToIP[hash]).value, ts)
        else old(hashToIP[hash])
      ensures Contents() == old(Contents()).(hashToIP := old(hashToIP)[hash := hashToIP[hash]])
    {
      if hash in hashToIP {
        var latestValue := hashToIP[hash];
        if latestValue.timestamp > ts {
          hashToIP := hashToIP[hash := latestValue.(timestamp := ts)];
        } else {
          assert hashToIP == hashToIP[hash := hashToIP[hash]];
        }
      } else {
        hashToIP := hashToIP[hash := TranslationUnit(ip, ts)];
      }
    }

    method AddHashToNodeName(hash: string, name: string, ts: Time)
      modifies this
      ensures Contents() == old(Contents()).(hashToNodeNames :=
        old(hashToNodeNames)[hash :=
          Upsert(History(old(hashToNodeNames), hash), TranslationUnit(ShortNodeName(name, isIPv4), ts))])
      ensures exists short :: IsShortName(short, name, isIPv4) && EndsWith(History(hashToNodeNames, hash), short, ts)
    {
      var shortName := ShortNodeName(name, isIPv4);
      ShortNameStays(name, isIPv4);
      UpsertEnds(History(hashToNodeNames, hash), shortName, ts);
      hashToNodeNames := UpsertToMap(hashToNodeNames, hash, TranslationUnit(shortName, ts));
    }

    method AddIPToNodeName(ip: string, name: string, ts: Time)
      modifies this
      ensures Contents() == old(Contents()).(ipToNodeNames :=
        old(ipToNodeNames)[ip :=
          Upsert(History(old(ipToNodeNames), ip), TranslationUnit(ShortNodeName(name, isIPv4), ts))])
      ensures exists short :: IsShortName(short, name, isIPv4) && EndsWith(History(ipToNodeNames, ip), short, ts)
    {
      var shortName := ShortNodeName(name, isIPv4);
      ShortNameStays(name, isIPv4);
      UpsertEnds(History(ipToNodeNames, ip), shortName, ts);
      ipToNodeNames := UpsertToMap(ipToNodeNames, ip, TranslationUnit(shortName, ts));
    }

    method AddIPToMethod(ip: string, name: string, ts: Time)
      modifies this
      ensures Contents() == old(Contents()).(ipToMethods :=
        old(ipToMethods)[ip := Upsert(History(old(ipToMethods), ip), TranslationUnit(name, ts))])
    {
      ipToMethods := UpsertToMap(ipToMethods, ip, TranslationUnit(name, ts));
    }

    method GetNodeNameFromHash(hash: string, ts: Time) returns (name: string)
      ensures name == Lookup(History(hashToNodeNames, hash), ts).value
      ensures History(hashToNodeNames, hash) == [] ==> name == ""
    {
      var unit := MostAppropriateValueFromTS(History(hashToNodeNames, hash), ts);
      name := unit.value;
    }
  }

  method UpsertToMap(m: map<string, seq<TranslationUnit>>, key: string, tu: TranslationUnit)
    returns (r: map<string, seq<TranslationUnit>>)
    ensures r == m[key := Upsert(History(m, key), tu)]
  {
    var units := History(m, key);
    var n := |units|;
    if n == 0 || units[n-1].value != tu.value {
      return m[key := units + [tu]];
    }
    r := m;
    if units[n-1].timestamp > tu.timestamp {
      r := m[key := units[n-1 := units[n-1].(timestamp := tu.timestamp)]];
    } else {
      assert m == m[key := m[key]];
    }
  }

  const NO_UNIT := TranslationUnit("", 0)

  method MostAppropriateValueFromTS(units: seq<TranslationUnit>, ts: Time) returns (cur: TranslationUnit)
    ensures cur == Lookup(units, ts)
  {
    if |units| == 0 {
      return NO_UNIT;
    }
    cur := units[0];
    for i := 1 to |units|
      invariant cur == Lookup(units[..i], ts)
    {
      assert units[..i+1][..i] == units[..i];
      if units[i].timestamp > cur.timestamp && units[i].timestamp <= ts {
        cur := units[i];
      }
    }
    assert units[..|units|] == units;
  }

  /** Which unit a history answers with at an instant. */
  function LookupIndex(units: seq<TranslationUnit>, ts: Time): (i: nat)
    requires units != []
    ensures i < |units|
  {
    var n := |units|;
    if n == 1 then 0
    else
      var i := LookupIndex(units[..n-1], ts);
      if units[n-1].timestamp > units[i].timestamp && units[n-1].timestamp <= ts then n - 1 else i
  }

  function Lookup(units: seq<TranslationUnit>, ts: Time): TranslationUnit {
    if units == [] then NO_UNIT else units[LookupIndex(units, ts)]
  }
}
