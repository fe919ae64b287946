/** The rows the store keeps, and the entries it builds from them. */
module Tables {
  import opened Text

  const INET_ORG_PERSON := "inetOrgPerson"
  const GROUP_OF_NAMES := "groupOfNames"
  const ORGANIZATIONAL_UNIT := "organizationalUnit"
  const TOP := "top"

  /** Times are whole-second UTC texts YYYYMMDDHHMMSS. */
  type Timestamp = string

  datatype EntryRow = EntryRow(id: nat, dn: string, parentDn: string, objectClass: string,
                               createdAt: Timestamp, updatedAt: Timestamp)

  datatype AttrRow = AttrRow(entryId: nat, name: string, value: string)

  datatype MemberRow = MemberRow(group: nat, member: nat)

  datatype Tables = Tables(entries: seq<EntryRow>, attributes: seq<AttrRow>, members: seq<MemberRow>,
                           passwords: map<nat, string>, nextId: nat)

  type Values = map<string, seq<string>>

  /** models.Entry; `computed` holds the attributes projected from other tables. */
  datatype Entry = Entry(id: nat, dn: string, parentDn: string, objectClass: string,
                         attributes: Values, computed: Values,
                         createdAt: Timestamp, updatedAt: Timestamp)
  {
    predicate IsUser() { objectClass == INET_ORG_PERSON }

    predicate IsGroup() { objectClass == GROUP_OF_NAMES }

    predicate IsOrganizationalUnit() { objectClass == ORGANIZATIONAL_UNIT }

    function GetAttributes(name: string): seq<string> {
      ValuesFor(attributes, Lower(name)) + ValuesFor(computed, Lower(name))
    }

    /** The first value, or "". */
    function GetAttribute(name: string): string {
      var values := GetAttributes(name);
      if values == [] then "" else values[0]
    }
  }

  function ValuesFor(m: Values, name: string): seq<string> {
    if name in m then m[name] else []
  }

  function AddValue(m: Values, name: string, value: string): Values {
    m[name := ValuesFor(m, name) + [value]]
  }

  /** The attribute map decodeAttributesJSON builds: names lowered, rows without a name skipped. */
  function Collect(rows: seq<AttrRow>, id: nat): Values {
    if rows == [] then map[]
    else
      var m, last := Collect(rows[..|rows| - 1], id), rows[|rows| - 1];
      if last.entryId == id && last.name != "" then AddValue(m, Lower(last.name), last.value) else m
  }

  lemma {:induction false} CollectIn(rows: seq<AttrRow>, id: nat, name: string, value: string)
    ensures value in ValuesFor(Collect(rows, id), name) <==>
      exists r :: r in rows && r.entryId == id && r.name != "" && Lower(r.name) == name && r.value == value
  {
    if rows != [] {
      var init, last := rows[..|rows| - 1], rows[|rows| - 1];
      assert rows == init + [last];
      CollectIn(init, id, name, value);
      var m := Collect(init, id);
      if r :| r in rows && r.entryId == id && r.name != "" && Lower(r.name) == name && r.value == value {
        assert r in init || r == last;
      }
    }
  }

  /** The entry a query returns for a row, before memberOf is projected. */
  function LoadEntry(t: Tables, row: EntryRow): Entry {
    Entry(row.id, row.dn, row.parentDn, row.objectClass, Collect(t.attributes, row.id), map[],
          row.createdAt, row.updatedAt)
  }

  /** Stored values come before computed ones, and are found under any case of their name. */
  lemma StoredComeFirst(e: Entry, name: string, i: nat)
    requires Lower(name) in e.attributes && i < |e.attributes[Lower(name)]|
    ensures i < |e.GetAttributes(name)| && e.GetAttributes(name)[i] == e.attributes[Lower(name)][i]
    ensures i == 0 ==> e.GetAttribute(name) == e.attributes[Lower(name)][0]
  {
  }
}
