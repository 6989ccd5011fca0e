/**
 * `formMockup`: a stand-in for the result of `cgi.FieldStorage()`, built
 * from keyword arguments so that CGI scripts can be exercised without a
 * web server.  Every argument becomes an object with a `value` attribute
 * holding the argument as text; a list argument becomes a list of them.
 */
module FormMockup {
  import opened Strings

  /** A keyword argument that is not a list: a string or an integer. */
  datatype Scalar = PyStr(s: string) | PyInt(i: int)

  /** A keyword argument: a single value, or a list of values. */
  datatype Arg = Single(v: Scalar) | PyList(items: seq<Scalar>)

  /** `FieldMockup`: an object whose `value` is set once, by its constructor. */
  datatype FieldMockup = FieldMockup(value: string)

  /** What the mockup holds under one name: one field, or a list of fields. */
  datatype Entry = Field(field: FieldMockup) | FieldList(fields: seq<FieldMockup>)

  /** `str(i)`: the decimal digits, after a minus sign when negative; they read back as `i`. */
  function IntText(i: int): (r: string)
    ensures i >= 0 ==> (forall k :: 0 <= k < |r| ==> IsDigit(r[k])) && |r| >= 1 && DigitsValue(r) == i
    ensures i < 0 ==>
      |r| >= 2 && r[0] == '-' && (forall k :: 1 <= k < |r| ==> IsDigit(r[k])) && DigitsValue(r[1..]) == -i
  {
    if i >= 0 then
      DigitsValueOfDecimal(i);
      Decimal(i)
    else
      DigitsValueOfDecimal(-i);
      assert (['-'] + Decimal(-i))[1..] == Decimal(-i);
      ['-'] + Decimal(-i)
  }

  /** `str(value)` for a value that is not a list. */
  function Str(v: Scalar): string
  {
    match v
    case PyStr(s) => s
    case PyInt(i) => IntText(i)
  }

  /** The fields made for a list argument, one per item, in order. */
  function FieldsOf(items: seq<Scalar>): (r: seq<FieldMockup>)
    ensures |r| == |items|
    ensures forall k :: 0 <= k < |items| ==> r[k] == FieldMockup(Str(items[k]))
  {
    seq(|items|, k requires 0 <= k < |items| => FieldMockup(Str(items[k])))
  }

  /** What the mockup holds for one argument. */
  function EntryOf(a: Arg): Entry
  {
    match a
    case Single(v) => Field(FieldMockup(Str(v)))
    case PyList(items) => FieldList(FieldsOf(items))
  }

  /**
   * A single argument gives one field holding its text (the text itself
   * for a string); a list gives a list of fields of the same length, the
   * k-th holding the text of the k-th item.
   */
  lemma EntryOfShape(a: Arg)
    ensures a.Single? ==> EntryOf(a).Field? && EntryOf(a).field.value == Str(a.v)
    ensures a.Single? && a.v.PyStr? ==> EntryOf(a).field.value == a.v.s
    ensures a.PyList? ==>
      EntryOf(a).FieldList? && |EntryOf(a).fields| == |a.items| &&
      forall k :: 0 <= k < |a.items| ==> EntryOf(a).fields[k].value == Str(a.items[k])
  {
  }

  /** The names of the keyword arguments, in order. */
  function Names(kwargs: seq<(string, Arg)>): (r: seq<string>)
    ensures |r| == |kwargs|
    ensures forall j :: 0 <= j < |kwargs| ==> r[j] == kwargs[j].0
  {
    seq(|kwargs|, j requires 0 <= j < |kwargs| => kwargs[j].0)
  }

  /** The set of names of the keyword arguments. */
  function NameSet(kwargs: seq<(string, Arg)>): (r: set<string>)
    ensures forall x :: x in r <==> exists j :: 0 <= j < |kwargs| && kwargs[j].0 == x
  {
    set j | 0 <= j < |kwargs| :: kwargs[j].0
  }

  /** One more argument adds its name to the set of names. */
  lemma NameSetStep(kwargs: seq<(string, Arg)>, i: nat)
    requires i < |kwargs|
    ensures NameSet(kwargs[..i + 1]) == NameSet(kwargs[..i]) + {kwargs[i].0}
  {
    var pre, next := kwargs[..i], kwargs[..i + 1];
    forall x | x in NameSet(next)
      ensures x in NameSet(pre) + {kwargs[i].0}
    {
      var j :| 0 <= j < i + 1 && next[j].0 == x;
      if j < i {
        assert pre[j] == next[j];
      }
    }
    forall x | x in NameSet(pre)
      ensures x in NameSet(next)
    {
      var j :| 0 <= j < i && pre[j].0 == x;
      assert next[j] == pre[j];
    }
    assert next[i] == kwargs[i];
  }

  /** The inner loop of `formMockup`: one field per item appended to the list under `key`. */
  method AppendPicks(mockup: map<string, Entry>, key: string, picks: seq<Scalar>) returns (m: map<string, Entry>)
    requires key in mockup && mockup[key] == FieldList([])
    ensures m == mockup[key := FieldList(FieldsOf(picks))]
  {
    m := mockup;
    var k := 0;
    while k < |picks|
      invariant 0 <= k <= |picks|
      invariant m == mockup[key := FieldList(FieldsOf(picks[..k]))]
    {
      m := m[key := FieldList(m[key].fields + [FieldMockup(Str(picks[k]))])];
      assert FieldsOf(picks[..k + 1]) == FieldsOf(picks[..k]) + [FieldMockup(Str(picks[k]))];
      k := k + 1;
    }
    assert picks[..k] == picks;
  }

  /** `m` holds the entries of the first `i` arguments, and nothing else. */
  ghost predicate MockupOf(kwargs: seq<(string, Arg)>, i: nat, m: map<string, Entry>)
  {
    i <= |kwargs| &&
    m.Keys == NameSet(kwargs[..i]) &&
    forall j :: 0 <= j < i ==> kwargs[j].0 in m && m[kwargs[j].0] == EntryOf(kwargs[j].1)
  }

  /** Entering the next argument keeps the entries of the earlier ones, whose names differ. */
  lemma MockupStep(kwargs: seq<(string, Arg)>, i: nat, m: map<string, Entry>)
    requires NoDuplicates(Names(kwargs)) && i < |kwargs| && MockupOf(kwargs, i, m)
    ensures MockupOf(kwargs, i + 1, m[kwargs[i].0 := EntryOf(kwargs[i].1)])
  {
    var m' := m[kwargs[i].0 := EntryOf(kwargs[i].1)];
    NameSetStep(kwargs, i);
    forall j | 0 <= j < i + 1
      ensures kwargs[j].0 in m' && m'[kwargs[j].0] == EntryOf(kwargs[j].1)
    {
      if j < i {
        assert Names(kwargs)[j] != Names(kwargs)[i];
      }
    }
  }

  /**
   * `formMockup(**kwargs)`: a dictionary with exactly the argument names
   * as keys, holding under each name the entry for its argument.  Keyword
   * arguments never repeat a name.
   */
  method MakeMockup(kwargs: seq<(string, Arg)>) returns (mockup: map<string, Entry>)
    requires NoDuplicates(Names(kwargs))
    ensures mockup.Keys == NameSet(kwargs)
    ensures forall j :: 0 <= j < |kwargs| ==> kwargs[j].0 in mockup && mockup[kwargs[j].0] == EntryOf(kwargs[j].1)
  {
    mockup := map[];
    var i := 0;
    while i < |kwargs|
      invariant 0 <= i <= |kwargs|
      invariant MockupOf(kwargs, i, mockup)
    {
      var (key, value) := kwargs[i];
      ghost var before := mockup;
      if value.Single? {
        mockup := mockup[key := Field(FieldMockup(Str(value.v)))];
      } else {
        mockup := mockup[key := FieldList([])];
        mockup := AppendPicks(mockup, key, value.items);
      }
      assert mockup == before[key := EntryOf(value)];
      MockupStep(kwargs, i, before);
      i := i + 1;
    }
    assert kwargs[..i] == kwargs;
  }

  /**
   * `selfTest`: a form built from a name, a job and a list of foods holds
   * 'Bob' under the name and 'eggs' as the second food.
   */
  method SelfTest() returns (namePasses: bool, foodPasses: bool)
    ensures namePasses && foodPasses
  {
    var kwargs := [("name", Single(PyStr("Bob"))), ("job", Single(PyStr("hacker"))),
                   ("food", PyList([PyStr("Spam"), PyStr("eggs"), PyStr("ham")]))];
    assert Names(kwargs) == ["name", "job", "food"];
    assert "name"[0] != "job"[0] && "name"[0] != "food"[0] && "job"[0] != "food"[0];
    var form := MakeMockup(kwargs);
    assert kwargs[0].0 == "name" && kwargs[2].0 == "food";
    namePasses := form["name"].Field? && form["name"].field.value == "Bob";
    foodPasses := form["food"].FieldList? && |form["food"].fields| > 1 && form["food"].fields[1].value == "eggs";
  }
}
