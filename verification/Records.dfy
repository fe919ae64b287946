/** LDIF records. */
module Records {
  import opened Text

  datatype Attribute = Attribute(name: string, value: string, line: nat)

  datatype Record = Record(dn: string, dnLine: nat, attributes: seq<Attribute>)

  /** Record.Values */
  function ValuesOf(attributes: seq<Attribute>, name: string): (values: seq<string>)
    ensures forall v :: v in values <==> exists a :: a in attributes && EqualFold(a.name, name) && a.value == v
  {
    if attributes == [] then []
    else
      var init, last := attributes[..|attributes| - 1], attributes[|attributes| - 1];
      assert attributes == init + [last];
      ValuesOf(init, name) + if EqualFold(last.name, name) then [last.value] else []
  }

  /** The values come in record order, as often as they are given. */
  lemma {:induction false} ValuesInOrder(a: seq<Attribute>, b: seq<Attribute>, x: Attribute, name: string)
    ensures ValuesOf(a + [x] + b, name) ==
      ValuesOf(a, name) + (if EqualFold(x.name, name) then [x.value] else []) + ValuesOf(b, name)
  {
    hide EqualFold;
    var all := a + [x] + b;
    if b == [] {
      assert all[..|all| - 1] == a && all[|all| - 1] == x;
    } else {
      var init, last := b[..|b| - 1], b[|b| - 1];
      assert all[..|all| - 1] == a + [x] + init && all[|all| - 1] == last;
      ValuesInOrder(a, init, x, name);
    }
  }
}
