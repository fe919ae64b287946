/** Real inputs on which the promised properties fail. */
module Examples {
  import opened Text
  import opened Dn
  import opened Tables
  import opened Filters
  import opened FilterParser
  import opened FilterSerializer
  import opened FilterRoundTrip
  import opened SubstringMeaning
  import opened SqlCompiler
  import opened SqlMeaning
  import opened Directory
  import opened DirectoryInvariant
  import opened Scope
  import opened SearchQuery
  import opened SearchScan
  import opened SearchRoutes
  import opened Search
  import opened SearchLimits
  import opened Records
  import opened ImportOrder
  import opened ImportFit
  import ImportPlan
  import Ber
  import BerIntegers

  // ---- Filters over text ----

  lemma EqualityText(attribute: string, value: string)
    requires NoSpecials(value)
    ensures Serialize(WireEquality(attribute, value)) == "(" + (attribute + "=" + value) + ")"
  {
    EscapeKeepsPlain(value);
  }

  /** An equality test on the value `a>=b` is read back as something else. */
  lemma EqualityDoesNotSurvive()
    ensures Serialize(WireEquality("cn", "a>=b")) == "(cn=a>=b)"
    ensures ParseFilter("(cn=a>=b)") != Item(Equality("cn", "a>=b"))
  {
    hide ParseFilter, ParseAt, Trimmed, Serialize, Reads;
    var w := WireEquality("cn", "a>=b");
    EqualityText("cn", "a>=b");
    assert "cn" + "=" + "a>=b" == "cn=a>=b" && "(" + "cn=a>=b" + ")" == "(cn=a>=b)";
    assert Trimmed("cn") by { CnTrimmed(); }
    assert PairAt("a>=b", '>', 1);
    RoundTrip(w);
  }

  lemma CnTrimmed()
    ensures Trimmed("cn")
  {
  }

  /** A substring test on `*b*`, with no initial piece, misses some value it should match. */
  lemma InnerPieceMissed()
    ensures var pieces := [Piece(Any, "b")];
      exists v :: !(ValueTest(Reads(WireSubstrings("cn", pieces)), "cn", v) <==> InOrder(Lower(v), pieces))
  {
    hide Reads, ValueTest, InOrder, Lower, LeafSurvives, PlainAttribute;
    assert PlainAttribute("cn") by { CnPlain(); }
    SubstringsServedAsMeant("cn", [Piece(Any, "b")]);
  }

  lemma CnPlain()
    ensures PlainAttribute("cn")
  {
  }

  // ---- Searches ----

  /** `(createTimestamp=*)` is read as asked, but finds nothing on any store, where it should find all that is in scope. */
  lemma TimePresenceFindsNothing(t: Tables, base: string, scope: SearchScope, searchBase: string)
    requires GoodStore(t, base)
    ensures ParseFilter("(createTimestamp=*)") == Item(Present("createTimestamp"))
    ensures Expected(t, Answered(Present("createTimestamp")), scope, searchBase) == {}
    ensures Expected(t, Present("createTimestamp"), scope, searchBase) == IdsInScope(t, scope, searchBase)
    ensures !AlwaysRight(Present("createTimestamp"))
  {
    hide GoodStore, ParseFilter, SpecMatches, InSearchScope, Answered, AlwaysRight, IsTimestamp, Compiles, Lower;
    var f := Present("createTimestamp");
    PresenceReads();
    CreateTimestampIsTime();
    TimeTestCompiles(f);
    forall row | row in t.entries ensures SpecMatches(t, row, f) && !SpecMatches(t, row, Answered(f)) {
      TimeTestOnRow(t, base, row, f);
    }
    TimePresenceWrong("createTimestamp");
  }

  lemma CreateTimestampIsTime()
    ensures IsTimestampAttribute("createTimestamp")
  {
    assert Lower("createTimestamp") == "createtimestamp";
  }

  lemma CreateTimestampPlain()
    ensures PlainAttribute("createTimestamp")
  {
  }

  lemma PresenceReads()
    ensures ParseFilter("(createTimestamp=*)") == Item(Present("createTimestamp"))
  {
    hide ParseFilter, ParseAt, PlainAttribute;
    var w := WirePresent("createTimestamp");
    CreateTimestampPlain();
    assert "(" + ("createTimestamp" + "=" + "*") + ")" == "(createTimestamp=*)";
    RoundTrip(w);
  }

  /** With a test that does not compile beside it, the same test is answered in memory, and finds everything. */
  lemma RoutesDisagree(t: Tables, base: string, scope: SearchScope, searchBase: string)
    requires GoodStore(t, base)
    ensures var f := Or([Present("createTimestamp"), Approx("cn", "a")]);
      Answered(f) == f && Expected(t, Answered(f), scope, searchBase) == IdsInScope(t, scope, searchBase)
  {
    hide GoodStore, SpecMatches, InSearchScope, IsTimestamp, Lower, FullEntry;
    var f, g := Or([Present("createTimestamp"), Approx("cn", "a")]), Present("createTimestamp");
    assert g in f.filters && f.filters[1] in f.filters;
    assert !CanCompileToSql(f.filters[1]);
    assert Answered(f) == f;
    CreateTimestampIsTime();
    TimeTestCompiles(g);
    forall row | row in t.entries ensures SpecMatches(t, row, f) {
      TimeTestOnRow(t, base, row, g);
      OrHolds(t, row, f, g);
    }
  }

  lemma OrHolds(t: Tables, row: EntryRow, f: Filter, g: Filter)
    requires f.Or? && g in f.filters && SpecMatches(t, row, g)
    ensures SpecMatches(t, row, f)
  {
    hide FullEntry;
    var e :| FullEntry(t, row, e) && Matches(g, e);
    assert Matches(f, e);
  }

  /** A test on the very time an entry was created does not find it. */
  lemma TimeEqualityFindsNothing()
    ensures !AlwaysRight(Equality("createTimestamp", "20240101000000Z"))
  {
    hide AlwaysRight, IsTimestampAttribute;
    var value := "20240101000000Z";
    assert value[..14] == SOME_TIME;
    SomeTimeIsTime();
    CreateTimestampIsTime();
    TimeEqualityRight("createTimestamp", value);
  }

  /** `(&(memberOf=)(memberOf=cn=g,dc=b))` is answered with the members of the group, though nothing satisfies it. */
  lemma HiddenTestAnswersMembers()
    ensures var f := And([Equality("memberOf", ""), Equality("memberOf", "cn=g,dc=b")]);
      ParseFilter("(&(memberOf=)(memberOf=cn=g,dc=b))") == Item(f) && HidesEmptyMemberOf(f) && !AlwaysRight(f)
  {
    hide ParseFilter, ParseAt, AlwaysRight, PlainAttribute, Trimmed, Lower;
    var f := And([Equality("memberOf", ""), Equality("memberOf", "cn=g,dc=b")]);
    HiddenTestReads();
    assert f.filters[0] in f.filters;
    assert f.filters[1..] == [Equality("memberOf", "cn=g,dc=b")] && f.filters[1..][1..] == [];
    assert MemberOfFrom([], "cn=g,dc=b") == Simple("cn=g,dc=b");
    assert MemberOfFrom(f.filters[1..], "") == Simple("cn=g,dc=b");
    assert MemberOfEqualityValue(f) == Simple("cn=g,dc=b");
    GroupTrimmed();
    GroupShortcutRight(f);
  }

  lemma GroupTrimmed()
    ensures Trimmed("cn=g,dc=b")
  {
  }

  lemma MemberOfPlain()
    ensures PlainAttribute("memberOf")
  {
  }

  lemma HiddenTestText(a: WireFilter, b: WireFilter)
    requires a == WireEquality("memberOf", "") && b == WireEquality("memberOf", "cn=g,dc=b")
    ensures Serialize(WireAnd([a, b])) == "(&(memberOf=)(memberOf=cn=g,dc=b))"
  {
    hide Serialize, NoSpecials;
    FirstText(a);
    SecondText(b);
    TwoTexts(a, b);
    assert "(&" + ("(memberOf=)" + "(memberOf=cn=g,dc=b)") + ")" == "(&(memberOf=)(memberOf=cn=g,dc=b))";
  }

  lemma FirstText(a: WireFilter)
    requires a == WireEquality("memberOf", "")
    ensures Serialize(a) == "(memberOf=)"
  {
    hide Serialize;
    EqualityText("memberOf", "");
    assert "(" + ("memberOf" + "=" + "") + ")" == "(memberOf=)";
  }

  lemma SecondText(b: WireFilter)
    requires b == WireEquality("memberOf", "cn=g,dc=b")
    ensures Serialize(b) == "(memberOf=cn=g,dc=b)"
  {
    hide Serialize;
    EqualityText("memberOf", "cn=g,dc=b");
    assert "(" + ("memberOf" + "=" + "cn=g,dc=b") + ")" == "(memberOf=cn=g,dc=b)";
  }

  lemma TwoTexts(a: WireFilter, b: WireFilter)
    ensures Serialize(WireAnd([a, b])) == "(&" + (Serialize(a) + Serialize(b)) + ")"
  {
    assert [a, b][1..] == [b] && [b][1..] == [];
    assert SerializeAll([]) == "";
    assert SerializeAll([b]) == Serialize(b) + "" == Serialize(b);
  }

  lemma TwoImages(a: WireFilter, b: WireFilter)
    ensures Image(WireAnd([a, b])) == And([Image(a), Image(b)])
  {
    assert [a, b][1..] == [b] && [b][1..] == [];
    assert ImageAll([b]) == [Image(b)];
  }

  lemma HiddenTestReads()
    ensures ParseFilter("(&(memberOf=)(memberOf=cn=g,dc=b))") ==
      Item(And([Equality("memberOf", ""), Equality("memberOf", "cn=g,dc=b")]))
  {
    hide ParseFilter, ParseAt, PlainAttribute, Trimmed, Serialize, Reads;
    var a, b := WireEquality("memberOf", ""), WireEquality("memberOf", "cn=g,dc=b");
    MemberOfPlain();
    GroupTrimmed();
    assert Trimmed("") by { NothingTrimmed(); }
    HiddenTestText(a, b);
    TwoImages(a, b);
    RoundTrip(WireAnd([a, b]));
  }

  /** Searched from above its base, a directory is found by its DN texts, and not by the query. */
  lemma AboveTheDirectory()
    ensures var t, base := BaseStore("dc=b,dc=c", SOME_TIME), "dc=c";
      && GoodStore(t, "dc=b,dc=c") && AboveDirectory(base, "dc=b,dc=c")
      && InSearchScope(WholeSubtree, base, t.entries[0].dn, t.entries[0].parentDn) && !InSqlScope(t, WholeSubtree, base, t.entries[0])
  {
    hide GoodStore, InSubtree, TrimSpace, Trimmed, Lower, IsTimestamp;
    var dn, base := "dc=b,dc=c", "dc=c";
    var t := BaseStore(dn, SOME_TIME);
    SomeTimeIsTime();
    TwoLevels();
    BaseStoreGood(dn, SOME_TIME);
    GoodParts(t, dn);
    assert t.entries[0] in t.entries;
    assert |Lower(dn)| == |dn| && |Lower(base)| == |base|;
    RootOutsideSubtree(t, dn, base, t.entries[0]);
  }

  lemma TwoLevels()
    ensures Trimmed("dc=b,dc=c") && Trimmed("dc=c") && TrimSpace("dc=b,dc=c") == "dc=b,dc=c" && TrimSpace("dc=c") == "dc=c"
    ensures Parent("dc=b,dc=c") == "dc=c" && WithinBase("dc=b,dc=c", "dc=c")
  {
    hide TrimSpace, FirstUnescaped, Lower;
    var dn := "dc=b,dc=c";
    assert FirstUnescaped(dn, ',') == 4 by { FirstComma(); }
    assert dn[5..] == "dc=c";
    assert AncestorOrSelf("dc=c", "dc=c");
  }

  lemma FirstComma()
    ensures FirstUnescaped("dc=b,dc=c", ',') == 4
  {
    var dn := "dc=b,dc=c";
    assert !Escaped(dn, 4) && IsCut(dn, ',', 4);
  }

  // ---- Integers ----

  /** The one byte 0xff stands for minus one and is read as 255. */
  lemma MinusOneInOneByte()
    ensures BerIntegers.TwosComplement([0xff]) == -1 && BerIntegers.Shifted([0xff]) == 255
  {
    assert Ber.Value([]) == 0;
    Ber.ValueExtend([], 0xff);
    assert [] + [0xff as Ber.Byte] == [0xff];
    assert Ber.Power256(1) == 256 by { Ber.Power256Values(); }
    BerIntegers.ShiftedWraps([0xff]);
  }

  // ---- The store ----

  function TopEntry(dn: string): Entry {
    Entry(0, dn, "", TOP, map[], map[], SOME_TIME, SOME_TIME)
  }

  function OwnMember(dn: string): Entry {
    Entry(0, dn, "", GROUP_OF_NAMES, map["member" := [dn]], map[], SOME_TIME, SOME_TIME)
  }

  lemma SmallBase(dn: string)
    requires dn == "dc=b"
    ensures Trimmed(dn) && TrimSpace(dn) == dn && WithinBase(dn, dn) && Equal(dn, TrimSpace(dn)) && EqualFold(dn, dn)
  {
    IsOwnBase(dn);
  }

  lemma SmallEntries(dn: string)
    requires dn == "dc=b"
    ensures WellBuilt(TopEntry(dn), dn) && HasRequiredAttributes(TopEntry(dn)) && !TopEntry(dn).IsGroup()
    ensures WellBuilt(OwnMember(dn), dn) && OwnMember(dn).IsGroup() && OwnMember(dn).GetAttributes("member") == [dn]
  {
    SmallBase(dn);
    SomeTimeIsTime();
    StoredNames();
    assert TOP[0] == 't' && GROUP_OF_NAMES[0] == 'g' && INET_ORG_PERSON[0] == 'i' && ORGANIZATIONAL_UNIT[0] == 'o';
    hide Lower, TrimSpace, IsTimestamp;
  }

  lemma FirstCreated(dn: string, uuid: string, after: Tables, outcome: Outcome)
    requires dn == "dc=b" && Created(Tables([], [], [], map[], 1), dn, TopEntry(dn), uuid, after, outcome)
    ensures outcome == Done && after.entries == [NewRow(Tables([], [], [], map[], 1), TopEntry(dn))]
  {
    hide HoldsAttributes, TrimSpace, WithinBase, Equal, HasRequiredAttributes;
    SmallBase(dn);
    SmallEntries(dn);
  }

  lemma OwnMemberUnsafe(t: Tables, dn: string)
    requires dn == "dc=b" && t.entries == [NewRow(Tables([], [], [], map[], 1), TopEntry(dn))]
    ensures UpdateOutcome(t, OwnMember(dn)) == Done && !UpdateSafe(t, OwnMember(dn))
  {
    hide Lower, Entry.GetAttributes, WellBuilt, HasRequiredAttributes;
    SmallEntries(dn);
    assert t.entries[0] in t.entries && t.entries[0].dn == dn;
    assert TOP[0] == 't' && GROUP_OF_NAMES[0] == 'g';
    assert EntryExists(t.entries, dn);
    assert MembersResolve(t.entries, [dn]);
  }

  /** Two successful steps from the empty store: the base entry is created, then updated as a group that is its own member. */
  method GroupRowsWithoutGroup() returns (store: Store, ghost states: seq<Tables>, ghost steps: seq<Step>)
    ensures fresh(store)
    ensures |steps| == 2 && IsRun(states, "dc=b", steps)
    ensures states[0] == Tables([], [], [], map[], 1)
    ensures states[2] == store.tables && Core(store.tables, "dc=b") && !MembersMatch(store.tables)
  {
    hide Created, Updated, WellBuilt, UpdateSafe, Core, MembersMatch;
    var dn := "dc=b";
    SmallEntries(dn);
    EmptyStoreInvariant(dn);
    store := new Store(dn);
    ghost var t0 := store.tables;
    var first := store.CreateEntry(TopEntry(dn), "u");
    ghost var t1 := store.tables;
    FirstCreated(dn, "u", t1, first);
    var second := store.UpdateEntry(OwnMember(dn), "u");
    ghost var t2 := store.tables;
    states, steps := [t0, t1, t2], [CreateStep(TopEntry(dn), "u"), UpdateStep(OwnMember(dn), "u")];
    assert Steps(t0, dn, steps[0], t1) && Steps(t1, dn, steps[1], t2);
    OwnMemberUnsafe(t1, dn);
    UpdatedOutcome(t1, OwnMember(dn), "u", t2, second);
    RunKeepsCore(states, dn, steps, 1);
    RunKeepsCore(states, dn, steps, 2);
    CreateKeepsInvariant(t0, dn, TopEntry(dn), "u", t1, first);
    UnsafeUpdateBreaks(t1, dn, OwnMember(dn), "u", t2);
  }

  // ---- An import ----

  const BASE_RECORD := Record("dc=b,dc=c", 1, [Attribute("objectClass", "top", 2)])

  function PlainOptions(base: string): ImportPlan.Options {
    ImportPlan.Options(base, false, false, s => ImportPlan.Hashed(s), s => s, SOME_TIME)
  }

  lemma BaseRecordBuilt()
    ensures var base := "dc=b,dc=c";
      ImportPlan.EntryOf(BASE_RECORD, base, PlainOptions(base)) ==
        ImportPlan.Built(ImportPlan.BareRecordEntry(base, TOP, map[], SOME_TIME))
  {
    var base := "dc=b,dc=c";
    TwoLevels();
    OnlyObjectClass();
    TopEntryIsFine();
    hide Lower, TrimSpace, Parent;
    assert |base| > 0;
    IsOwnBase(base);
    TopClass();
  }

  lemma TopClass()
    ensures ImportPlan.ClassFrom(["top"], "", true) == ImportPlan.Class(TOP)
  {
    assert TrimSpace("top") == "top" && Lower("top") == TOP by { TopTrimmed(); }
    hide TrimSpace, Lower;
    assert ["top"][1..] == [];
    assert ImportPlan.IsTop("top");
  }

  lemma TopTrimmed()
    ensures TrimSpace("top") == "top" && Lower("top") == TOP
  {
    assert Trimmed("top");
  }

  lemma OnlyObjectClass()
    ensures var attributes := BASE_RECORD.attributes;
      && ValuesOf(attributes, "objectClass") == ["top"] && ValuesOf(attributes, "userPassword") == []
      && ImportPlan.PlainAttributes(attributes) == map[] && !exists a :: a in attributes && ImportPlan.IsProtected(a.name)
  {
    var a := Attribute("objectClass", "top", 2);
    assert Lower("objectClass")[0] == 'o' && Lower("userPassword")[0] == 'u';
    assert Lower("objectClass") == "objectclass";
    assert "entryuuid"[0] == 'e' && "uuid"[0] == 'u' && "createtimestamp"[0] == 'c' && "modifytimestamp"[0] == 'm' && "memberof"[0] == 'm';
    hide Lower;
    assert [a][..0] == [];
  }

  lemma TopEntryIsFine()
    ensures var e := ImportPlan.BareRecordEntry("dc=b,dc=c", TOP, map[], SOME_TIME);
      !e.IsUser() && !e.IsGroup() && HasRequiredAttributes(e) && ValidateEntry(e) == Done
  {
    assert TOP[0] == 't' && GROUP_OF_NAMES[0] == 'g' && INET_ORG_PERSON[0] == 'i' && ORGANIZATIONAL_UNIT[0] == 'o';
  }

  /** On an empty store the record of a base entry that has a parent DN is planned, but cannot be created. */
  lemma BaseRecordNotCreated()
    ensures var t, base := Tables([], [], [], map[], 1), "dc=b,dc=c"; var options := PlainOptions(base);
      && ImportPlan.BatchAccepted(t, [BASE_RECORD], options)
      && IsOrder(ImportPlan.Entries([BASE_RECORD], TrimSpace(base), options), ImportPlan.RecordKeys([BASE_RECORD]),
                 ImportPlan.Entries([BASE_RECORD], TrimSpace(base), options))
      && !Fits(t, [BASE_RECORD], TrimSpace(base), options)
  {
    hide ImportPlan.EntryOf, Parent, Lower, TrimSpace, WithinBase, FirstUnescaped;
    var t, base := Tables([], [], [], map[], 1), "dc=b,dc=c";
    var options, records := PlainOptions(base), [BASE_RECORD];
    BaseRecordBuilt();
    TwoLevels();
    TopEntryIsFine();
    IsOwnBase(base);
    var e := ImportPlan.BareRecordEntry(base, TOP, map[], SOME_TIME);
    var entries := ImportPlan.Entries(records, base, options);
    assert entries == [e] && records[0] in records;
    BaseKeys(e);
    assert entries[..0] == [] && Ready(e, ImportPlan.RecordKeys(records), Keys([]));
  }

  lemma BaseKeys(e: Entry)
    requires e == ImportPlan.BareRecordEntry("dc=b,dc=c", TOP, map[], SOME_TIME)
    ensures DnKey("dc=b,dc=c") == "dc=b,dc=c" && DnKey(e.parentDn) == "dc=c"
    ensures ImportPlan.RecordKeys([BASE_RECORD]) == {"dc=b,dc=c"}
  {
    hide Lower, TrimSpace, Parent;
    TwoLevels();
    LowerBase();
    assert BASE_RECORD in [BASE_RECORD];
  }

  lemma LowerBase()
    ensures Lower("dc=b,dc=c") == "dc=b,dc=c" && Lower("dc=c") == "dc=c"
  {
  }
}
