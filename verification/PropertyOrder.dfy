/** The order in which an object lists its properties: OrdinaryOwnPropertyKeys of ECMA-262. */
module PropertyOrder {
  import opened Text
  import opened TypeSchema
  import opened SchemaMeaning
  import FunctionArguments
  import ArgumentMeaning

  // ----- Array indices -----

  function Digit(d: nat): char
    requires d < 10
  {
    "0123456789"[d]
  }

  /** The number in decimal. */
  function Decimal(n: nat): string {
    if n < 10 then [Digit(n)] else Decimal(n / 10) + [Digit(n % 10)]
  }

  function DigitValue(c: char): nat {
    if '0' <= c <= '9' then c as nat - '0' as nat else 0
  }

  function Number(s: string): nat {
    if s == "" then 0 else 10 * Number(s[..|s| - 1]) + DigitValue(s[|s| - 1])
  }

  predicate AllDigits(s: string) {
    forall c | c in s :: '0' <= c <= '9'
  }

  /** Digits, without a zero in front of others. */
  predicate IsNumeral(s: string) {
    s != "" && AllDigits(s) && (s[0] == '0' ==> s == "0")
  }

  lemma OneMore(s: string, c: char)
    ensures Number(s + [c]) == 10 * Number(s) + DigitValue(c)
  {
    assert (s + [c])[..|s|] == s;
  }

  lemma Nothing()
    ensures Number("") == 0
  {
  }

  lemma DigitExact(d: nat)
    requires d < 10
    ensures '0' <= Digit(d) <= '9' && DigitValue(Digit(d)) == d && (Digit(d) == '0' <==> d == 0)
  {
  }

  lemma {:induction false} DecimalNumber(n: nat)
    ensures IsNumeral(Decimal(n)) && Number(Decimal(n)) == n && (Decimal(n)[0] == '0' <==> n == 0)
  {
    var s := Decimal(n);
    if n < 10 {
      DigitExact(n);
      assert s[..0] == "";
    } else {
      var front, last := Decimal(n / 10), Digit(n % 10);
      DecimalNumber(n / 10);
      DigitExact(n % 10);
      assert s == front + [last] && s[..|s| - 1] == front && s[|s| - 1] == last && s[0] == front[0];
    }
  }

  lemma ShorterNumeral(s: string)
    requires IsNumeral(s) && |s| > 1
    ensures IsNumeral(s[..|s| - 1]) && s[..|s| - 1] != "0"
  {
    var front := s[..|s| - 1];
    assert front[0] == s[0] && s != "0";
    forall c | c in front ensures '0' <= c <= '9' { assert c in s; }
  }

  lemma {:induction false} NumeralDecimal(s: string)
    requires IsNumeral(s)
    ensures Decimal(Number(s)) == s
  {
    hide Decimal, Number, DigitValue, Digit, IsNumeral;
    LastDigit(s);
    var front, last := s[..|s| - 1], s[|s| - 1];
    OneMore(front, last);
    DigitBack(last);
    if |s| == 1 {
      Nothing();
      OneDigit(DigitValue(last));
    } else {
      ShorterNumeral(s);
      NumeralDecimal(front);
      PositiveNumeral(front);
      TensAndOnes(Number(front), DigitValue(last));
    }
  }

  lemma LastDigit(s: string)
    requires IsNumeral(s)
    ensures s != "" && s == s[..|s| - 1] + [s[|s| - 1]] && '0' <= s[|s| - 1] <= '9'
  {
    assert s[|s| - 1] in s;
  }

  lemma OneDigit(d: nat)
    requires d < 10
    ensures Decimal(d) == [Digit(d)]
  {
  }

  lemma DigitBack(c: char)
    requires '0' <= c <= '9'
    ensures DigitValue(c) < 10 && Digit(DigitValue(c)) == c
  {
  }

  lemma PositiveNumeral(s: string)
    requires IsNumeral(s) && s != "0" && Decimal(Number(s)) == s
    ensures Number(s) > 0
  {
  }

  lemma TensAndOnes(n: nat, d: nat)
    requires n > 0 && d < 10
    ensures Decimal(10 * n + d) == Decimal(n) + [Digit(d)]
  {
    hide Digit;
    assert (10 * n + d) / 10 == n && (10 * n + d) % 10 == d;
  }

  // ----- The order of numerals -----

  function Power(k: nat): nat {
    if k == 0 then 1 else 10 * Power(k - 1)
  }

  lemma {:induction false} NumberBelow(s: string)
    requires AllDigits(s)
    ensures Number(s) < Power(|s|)
  {
    if s != "" {
      var front := s[..|s| - 1];
      assert forall c | c in front :: c in s;
      assert s[|s| - 1] in s;
      NumberBelow(front);
    }
  }

  lemma TenTimes(d: nat, p: nat)
    ensures 10 * (d * p) == d * (10 * p)
  {
  }

  /** The first digit's weight. */
  lemma {:induction false} NumberFirst(c: char, t: string)
    ensures Number([c] + t) == DigitValue(c) * Power(|t|) + Number(t)
  {
    hide Number, DigitValue;
    Nothing();
    if t == "" {
      assert [c] + t == "" + [c];
      OneMore("", c);
    } else {
      var u, e := t[..|t| - 1], t[|t| - 1];
      assert t == u + [e] && [c] + t == ([c] + u) + [e];
      OneMore([c] + u, e);
      OneMore(u, e);
      NumberFirst(c, u);
      TenTimes(DigitValue(c), Power(|u|));
    }
  }

  /** `Less` is the numeric order of digit strings of the same length. */
  lemma {:induction false} LessExact(a: string, b: string)
    requires |a| == |b| && AllDigits(a) && AllDigits(b)
    ensures Less(a, b) <==> Number(a) < Number(b)
    decreases |a|
  {
    hide Number, Power;
    if a == "" {
      Nothing();
    } else {
      assert a == [a[0]] + a[1..] && b == [b[0]] + b[1..] && a[0] in a && b[0] in b;
      assert forall c | c in a[1..] || c in b[1..] :: c in a || c in b;
      NumberFirst(a[0], a[1..]);
      NumberFirst(b[0], b[1..]);
      NumberBelow(a[1..]);
      NumberBelow(b[1..]);
      LessExact(a[1..], b[1..]);
      FirstDecides(DigitValue(a[0]), DigitValue(b[0]), Power(|a| - 1), Number(a[1..]), Number(b[1..]));
    }
  }

  lemma NextMultiple(x: nat, y: nat, p: nat)
    requires x < y
    ensures x * p + p <= y * p
  {
    var d := y - x - 1;
    assert y * p == x * p + p + d * p;
  }

  lemma FirstDecides(x: nat, y: nat, p: nat, m: nat, n: nat)
    requires m < p && n < p
    ensures x < y ==> x * p + m < y * p + n
    ensures x == y ==> (x * p + m < y * p + n <==> m < n)
    ensures x > y ==> x * p + m > y * p + n
  {
    if x < y { NextMultiple(x, y, p); }
    if x > y { NextMultiple(y, x, p); }
  }

  /** A numeral of more digits is the greater number. */
  lemma NumeralLength(s: string)
    requires IsNumeral(s) && |s| > 1
    ensures Number(s) >= Power(|s| - 1)
  {
    hide Number, Power;
    assert s == [s[0]] + s[1..] && s[0] in s && s != "0";
    NumberFirst(s[0], s[1..]);
    AtLeastOnce(DigitValue(s[0]), Power(|s| - 1));
  }

  lemma AtLeastOnce(d: nat, p: nat)
    requires d > 0
    ensures d * p >= p
  {
    assert (d - 1) * p >= 0;
  }

  lemma {:induction false} PowerGrows(j: nat, k: nat)
    requires j <= k
    ensures 1 <= Power(j) <= Power(k)
  {
    if j < k { PowerGrows(j, k - 1); } else if k > 0 { PowerGrows(k - 1, k - 1); }
  }

  lemma NumeralOrder(a: string, b: string)
    requires IsNumeral(a) && IsNumeral(b)
    ensures Number(a) < Number(b) <==> |a| < |b| || (|a| == |b| && Less(a, b))
  {
    if |a| == |b| {
      LessExact(a, b);
    } else if |a| < |b| {
      LongerIsGreater(a, b);
    } else {
      LongerIsGreater(b, a);
    }
  }

  lemma LongerIsGreater(a: string, b: string)
    requires IsNumeral(a) && IsNumeral(b) && |a| < |b|
    ensures Number(a) < Number(b)
  {
    NumberBelow(a);
    NumeralLength(b);
    PowerGrows(|a|, |b| - 1);
  }

  /** An array index: a number below `2^32 - 1` in decimal. */
  lemma IndexExact(name: string)
    ensures IsIndex(name) <==> exists n :: 0 <= n < 0xFFFF_FFFF && name == Decimal(n)
  {
    var last := "4294967295";
    LastNumeral();
    if IsNumeral(name) {
      NumeralDecimal(name);
      NumeralOrder(name, last);
    }
    forall n: nat ensures IsNumeral(Decimal(n)) && Number(Decimal(n)) == n { DecimalNumber(n); }
  }

  lemma LastNumeral()
    ensures IsNumeral("4294967295") && Number("4294967295") == 0xFFFF_FFFF
  {
    hide Number;
    OneMore("429496729", '5');
    OneMore("42949672", '9');
    OneMore("4294967", '2');
    OneMore("429496", '7');
    OneMore("42949", '6');
    OneMore("4294", '9');
    OneMore("429", '4');
    OneMore("42", '9');
    OneMore("4", '2');
    OneMore("", '4');
    Nothing();
    assert "" + ['4'] == "4" && "4" + ['2'] == "42" && "42" + ['9'] == "429" && "429" + ['4'] == "4294";
    assert "4294" + ['9'] == "42949" && "42949" + ['6'] == "429496" && "429496" + ['7'] == "4294967";
    assert "4294967" + ['2'] == "42949672" && "42949672" + ['9'] == "429496729";
    assert "429496729" + ['5'] == "4294967295";
  }

  // ----- Listing properties -----

  /** Indices come first, by number. */
  lemma OvertakesExact(a: string, b: string)
    ensures Overtakes(a, b) <==> IsIndex(a) && (IsIndex(b) ==> Number(a) < Number(b))
  {
    if IsIndex(a) && IsIndex(b) { NumeralOrder(a, b); }
  }

  /** No name twice, and none behind one that it overtakes. */
  predicate Listed(properties: seq<Property>) {
    forall i, j | 0 <= i < j < |properties| ::
      properties[i].name != properties[j].name && !Overtakes(properties[j].name, properties[i].name)
  }

  lemma OvertakesOrders(a: string, b: string, c: string)
    ensures !(Overtakes(a, b) && Overtakes(b, a))
    ensures Overtakes(a, b) && Overtakes(b, c) ==> Overtakes(a, c)
  {
    hide IsIndex;
    OvertakesExact(a, b);
    OvertakesExact(b, a);
    OvertakesExact(b, c);
    OvertakesExact(a, c);
  }

  /** Where a property goes: to the place of its name, or in front of the first one it overtakes, or to the end. */
  predicate PlaceFor(properties: seq<Property>, name: string, k: nat) {
    && k <= |properties|
    && (forall i | 0 <= i < k :: properties[i].name != name && !Overtakes(name, properties[i].name))
    && (k < |properties| ==> properties[k].name == name || Overtakes(name, properties[k].name))
  }

  /** The list with the property in its place. */
  function With(properties: seq<Property>, p: Property, k: nat): seq<Property>
    requires k <= |properties|
  {
    properties[..k] + [p] + properties[if k < |properties| && properties[k].name == p.name then k + 1 else k..]
  }

  lemma WithBehind(properties: seq<Property>, p: Property, l: nat)
    requires properties != [] && l <= |properties| - 1
    ensures With(properties, p, l + 1) == [properties[0]] + With(properties[1..], p, l)
  {
  }

  lemma AssignHere(properties: seq<Property>, p: Property)
    requires p.name != "__proto__"
    requires properties == [] || properties[0].name == p.name || Overtakes(p.name, properties[0].name)
    ensures PlaceFor(properties, p.name, 0) && Assign(properties, p) == With(properties, p, 0)
  {
    hide Overtakes;
  }

  lemma {:induction false} Placed(properties: seq<Property>, p: Property) returns (k: nat)
    requires p.name != "__proto__"
    ensures PlaceFor(properties, p.name, k) && Assign(properties, p) == With(properties, p, k)
  {
    hide Overtakes, PlaceFor, With;
    if properties == [] || properties[0].name == p.name || Overtakes(p.name, properties[0].name) {
      k := 0;
      AssignHere(properties, p);
    } else {
      var l := Placed(properties[1..], p);
      k := l + 1;
      PlacedBehind(properties, p.name, l);
      WithBehind(properties, p, l);
    }
  }

  lemma PlacedBehind(properties: seq<Property>, name: string, l: nat)
    requires properties != [] && properties[0].name != name && !Overtakes(name, properties[0].name)
    requires PlaceFor(properties[1..], name, l)
    ensures PlaceFor(properties, name, l + 1) && l + 1 <= |properties|
  {
    hide Overtakes;
    forall i | 0 <= i < l + 1 ensures properties[i].name != name && !Overtakes(name, properties[i].name) {
      if i > 0 { assert properties[i] == properties[1..][i - 1]; }
    }
  }

  /**
   * Setting a property: a name that is listed keeps its place, and a new one goes in front of the first name it
   * overtakes, or to the end. The list stays in order, and no other property changes.
   */
  lemma AssignExact(properties: seq<Property>, p: Property) returns (k: nat)
    requires Listed(properties) && p.name != "__proto__"
    ensures PlaceFor(properties, p.name, k) && Listed(Assign(properties, p))
    ensures if exists q | q in properties :: q.name == p.name
            then k < |properties| && properties[k].name == p.name && Assign(properties, p) == properties[k := p]
            else Assign(properties, p) == properties[..k] + [p] + properties[k..]
  {
    k := Placed(properties, p);
    if k < |properties| && properties[k].name == p.name {
      Replaced(properties, p, k);
    } else {
      NewName(properties, p.name, k);
      Inserted(properties, p, k);
    }
  }

  lemma Replaced(properties: seq<Property>, p: Property, k: nat)
    requires Listed(properties) && k < |properties| && properties[k].name == p.name
    ensures Listed(properties[k := p]) && properties[..k] + [p] + properties[k + 1..] == properties[k := p]
  {
    hide Overtakes;
    var all := properties[k := p];
    assert forall i | 0 <= i < |all| :: all[i].name == properties[i].name;
  }

  lemma NewName(properties: seq<Property>, name: string, k: nat)
    requires Listed(properties) && PlaceFor(properties, name, k)
    requires !(k < |properties| && properties[k].name == name)
    ensures forall i | 0 <= i < |properties| :: properties[i].name != name
    ensures forall i | k <= i < |properties| :: !Overtakes(properties[i].name, name)
  {
    hide Overtakes;
    forall i | k <= i < |properties| ensures properties[i].name != name && !Overtakes(properties[i].name, name) {
      OvertakesOrders(properties[i].name, name, properties[k].name);
    }
  }

  lemma Inserted(properties: seq<Property>, p: Property, k: nat)
    requires Listed(properties) && PlaceFor(properties, p.name, k)
    requires forall i | 0 <= i < |properties| :: properties[i].name != p.name
    requires forall i | k <= i < |properties| :: !Overtakes(properties[i].name, p.name)
    ensures Listed(properties[..k] + [p] + properties[k..])
  {
    hide Overtakes;
    var all := properties[..k] + [p] + properties[k..];
    forall i, j | 0 <= i < j < |all|
      ensures all[i].name != all[j].name && !Overtakes(all[j].name, all[i].name)
    {
      var a, b := if i < k then i else i - 1, if j < k then j else j - 1;
      assert i != k ==> all[i] == properties[a];
      assert j != k ==> all[j] == properties[b];
    }
  }

  // ----- The properties of an object schema -----

  /** The names that have to be there, as they come. */
  function RequiredNames(children: seq<Child>): seq<string> {
    if children == [] then []
    else
      (if children[0].kind.PropertyMember? && !MayBeAbsent(children[0]) then [children[0].name] else [])
      + RequiredNames(children[1..])
  }

  lemma {:induction false} ChildrenInOrder(parse: Translator, properties: seq<Property>, required: seq<string>,
                                           children: seq<Child>, s: Schema)
    requires ChildrenBy(parse, properties, required, children) == Ok(s) && Listed(properties)
    ensures s.Closed? && Listed(s.properties) && s.required == required + RequiredNames(children)
    decreases children
  {
    hide Listed, Assign, MayBeAbsent;
    if children != [] {
      var c, rest := children[0], children[1..];
      if !IsProperty(c) {
        ChildrenInOrder(parse, properties, required, rest, s);
      } else {
        var p := Property(c.name, parse(c.declared).value, c.doc);
        AssignKeepsOrder(properties, p);
        var required' := if MayBeAbsent(c) then required else required + [c.name];
        ChildrenInOrder(parse, Assign(properties, p), required', rest, s);
      }
    }
  }

  lemma AssignKeepsOrder(properties: seq<Property>, p: Property)
    requires Listed(properties)
    ensures Listed(Assign(properties, p))
  {
    hide Listed;
    if p.name == "__proto__" {
      assert Assign(properties, p) == properties;
    } else {
      var k := AssignExact(properties, p);
    }
  }

  /** An object schema lists its properties in this order and its required names in that of the members. */
  lemma ObjectInOrder(children: seq<Child>, s: Schema)
    requires ParseObject(children) == Ok(s) || FunctionArguments.ParseParamChildren([], [], children) == Ok(s)
    ensures s.Closed? && Listed(s.properties) && s.required == RequiredNames(children)
  {
    hide Parse, FunctionArguments.ParseParam, ParseChildren, FunctionArguments.ParseParamChildren, ChildrenBy, Listed;
    NothingListed();
    StrictChildren([], [], children);
    ArgumentMeaning.RelaxedChildren([], [], children);
    if ParseObject(children) == Ok(s) {
      ChildrenInOrder(Parse, [], [], children, s);
    } else {
      ChildrenInOrder(FunctionArguments.ParseParam, [], [], children, s);
    }
    assert [] + RequiredNames(children) == RequiredNames(children);
  }

  lemma NothingListed()
    ensures Listed([])
  {
  }
}
