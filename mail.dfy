/** The argument normalisers of the mailer: parseView() sorts the view
    argument into its html, text and raw parts, and processRecipients()
    folds the accepted recipient shapes into an address => name array. */
module Mail {
  import opened Wrappers
  import Text

  // ---------------------------------------------------------------------------
  // PHP values

  /** A PHP array key: an integer or a string. */
  datatype Key = IntKey(i: int) | StrKey(s: string)

  /** The PHP values these functions look at. An array is its entries in
      order (PHP keeps its keys distinct); an object is its public
      properties by name. */
  datatype Value =
    | Null
    | Bool(b: bool)
    | Int(i: int)
    | Str(s: string)
    | Arr(entries: seq<Entry>)
    | Obj(props: map<string, Value>)

  datatype Entry = Entry(key: Key, value: Value)

  /** The value stored under `key`, None when the key is absent. */
  function Lookup(entries: seq<Entry>, key: Key): (r: Option<Value>)
    ensures r.None? <==> forall i :: 0 <= i < |entries| ==> entries[i].key != key
    ensures r.Some? ==> exists i :: 0 <= i < |entries| && entries[i] == Entry(key, r.value)
  {
    if |entries| == 0 then None
    else if entries[0].key == key then Some(entries[0].value)
    else Lookup(entries[1..], key)
  }

  /** PHP's conversion to boolean: null, false, 0, "", "0" and the empty
      array are false; everything else is true. */
  predicate Truthy(v: Value)
  {
    match v
    case Null => false
    case Bool(b) => b
    case Int(i) => i != 0
    case Str(s) => Text.Truthy(s)
    case Arr(entries) => |entries| > 0
    case Obj(_) => true
  }

  /** isset($a[$key]): the key is present and its value is not null. */
  predicate IsSet(entries: seq<Entry>, key: Key)
  {
    Lookup(entries, key).Some? && !Lookup(entries, key).value.Null?
  }

  /** $a[$key] ?? null, and also $a[$key] read without a guard (an absent
      key reads as null). */
  function Coalesce(entries: seq<Entry>, key: Key): Value
  {
    if Lookup(entries, key).Some? then Lookup(entries, key).value else Null
  }

  /** array_get($a, $key, $default): the stored value whenever the key is
      present, even a null or false one; the default otherwise. */
  function ArrayGet(entries: seq<Entry>, key: Key, default: Value): Value
  {
    if Lookup(entries, key).Some? then Lookup(entries, key).value else default
  }

  /** empty($object->name): the property is missing or reads as false. */
  predicate Empty(props: map<string, Value>, name: string)
  {
    name !in props || !Truthy(props[name])
  }

  /** A string PHP stores as an integer key: "0", or decimal digits after an
      optional '-' with no leading zero, within PHP's integer range. "012",
      "+1", "-0" and "1.5" stay strings. */
  predicate IsIntegerKey(s: string)
  {
    && Text.IsIntegerString(s) && s[0] != '+'
    && (if s[0] == '-' then s[1] != '0' else s == "0" || s[0] != '0')
    && Text.FitsInt(s)
  }

  /** The key PHP makes of a string: an integer key for the canonical
      decimal form of an integer, the string itself otherwise. */
  function StringKey(s: string): (r: Key)
    ensures r.IntKey? <==> IsIntegerKey(s)
    ensures r.IntKey? ==> r.i == Text.IntegerValue(s) && -Text.IntMax - 1 <= r.i <= Text.IntMax
    ensures r.StrKey? ==> r.s == s
  {
    if IsIntegerKey(s) then IntKey(Text.IntegerValue(s)) else StrKey(s)
  }

  /** The key conversion merges no two strings: different strings are
      different keys. */
  lemma StringKeyInjective(a: string, b: string)
    ensures StringKey(a) == StringKey(b) ==> a == b
  {
    if StringKey(a) == StringKey(b) && StringKey(a).IntKey? {
      IntegerKeyInjective(a, b);
    }
  }

  /** Two integer-key strings with the same value are the same string. */
  lemma IntegerKeyInjective(a: string, b: string)
    requires IsIntegerKey(a) && IsIntegerKey(b) && Text.IntegerValue(a) == Text.IntegerValue(b)
    ensures a == b
  {
    IntegerKeySign(a);
    IntegerKeySign(b);
    assert (a[0] == '-') == (b[0] == '-');
    if a[0] == '-' {
      Text.CanonicalDigitsInjective(a[1..], b[1..]);
      assert a == [a[0]] + a[1..] && b == [b[0]] + b[1..];
    } else if a != "0" {
      assert b != "0";
      Text.CanonicalDigitsInjective(a, b);
    }
  }

  /** The sign of an integer key is its first character, and only "0" is
      worth zero. */
  lemma IntegerKeySign(s: string)
    requires IsIntegerKey(s)
    ensures s[0] == '-' ==> |s| > 1 && Text.AllDigits(s[1..]) && s[1] != '0' && Text.IntegerValue(s) < 0
    ensures s[0] != '-' ==> Text.AllDigits(s)
    ensures s[0] != '-' ==> (s == "0" <==> Text.IntegerValue(s) == 0)
    ensures s[0] != '-' && s != "0" ==> s[0] != '0' && Text.IntegerValue(s) > 0
  {
    var digits := if s[0] == '-' then s[1..] else s;
    assert Text.AllDigits(digits) by {
      forall i | 0 <= i < |digits| ensures Text.IsDigit(digits[i]) { assert digits[i] in digits; }
    }
    if digits != "0" {
      Text.DigitsAtLeast(digits);
    } else {
      assert digits[..0] == [];
      assert Text.DigitsValue(digits) == Text.DigitsValue(digits[..0]) * 10 == 0;
    }
  }

  /** PHP's conversion of string keys on a few inputs. */
  lemma StringKeyExamples()
    ensures StringKey("12") == IntKey(12) && StringKey("-7") == IntKey(-7) && StringKey("0") == IntKey(0)
    ensures StringKey("012") == StrKey("012") && StringKey("-0") == StrKey("-0")
    ensures StringKey("+1") == StrKey("+1") && StringKey("1.5") == StrKey("1.5")
  {
    assert "0"[..0] == "" && "7"[..0] == "" && "1"[..0] == "" && "12"[..1] == "1" && "-7"[1..] == "7";
    assert !Text.IsDigit('.') && "1.5"[1] == '.';
  }

  /** The key PHP makes of a value used as an array key: integers as they
      are, strings as StringKey converts them, booleans as 0 or 1, null as
      ""; an array or an object is an illegal offset. */
  function ArrayKey(v: Value): (r: Option<Key>)
    ensures r.None? <==> v.Arr? || v.Obj?
    ensures v.Str? ==> r == Some(StringKey(v.s))
    ensures v.Int? ==> r == Some(IntKey(v.i))
    ensures v.Null? ==> r == Some(StrKey(""))
    ensures v.Bool? ==> r == Some(IntKey(if v.b then 1 else 0))
  {
    match v
    case Null => Some(StrKey(""))
    case Bool(b) => Some(IntKey(if b then 1 else 0))
    case Int(i) => Some(IntKey(i))
    case Str(s) => Some(StringKey(s))
    case _ => None
  }

  const IllegalOffset: string := "Illegal offset type"
  const InvalidView: string := "Invalid view."

  // ---------------------------------------------------------------------------
  // parseView()

  /** The html, text and raw parts of a view. */
  datatype View = View(html: Value, text: Value, raw: Value)

  /** parseView(): a string is the html view; an array with index 0 is a
      list of the html and text views; another array names its parts, and a
      raw part moves to the text and leaves the flag TRUE; anything else is
      an InvalidArgumentException. */
  function ParseView(view: Value): (r: Result<View, string>)
    ensures r.Err? <==> !view.Str? && !view.Arr?
    ensures r.Err? ==> r.error == InvalidView
    ensures view.Str? ==> r == Ok(View(view, Null, Null))
    ensures view.Arr? && IsSet(view.entries, IntKey(0))
      ==> r == Ok(View(Lookup(view.entries, IntKey(0)).value, Coalesce(view.entries, IntKey(1)), Null))
    ensures view.Arr? && !IsSet(view.entries, IntKey(0))
      ==> r.Ok? && r.value.html == Coalesce(view.entries, StrKey("html"))
  {
    match view
    case Str(_) => Ok(View(view, Null, Null))
    case Arr(entries) =>
      if IsSet(entries, IntKey(0)) then
        Ok(View(Lookup(entries, IntKey(0)).value, Coalesce(entries, IntKey(1)), Null))
      else if IsSet(entries, StrKey("raw")) then
        Ok(View(Coalesce(entries, StrKey("html")), Lookup(entries, StrKey("raw")).value, Bool(true)))
      else
        Ok(View(Coalesce(entries, StrKey("html")), Coalesce(entries, StrKey("text")), Null))
    case _ => Err(InvalidView)
  }

  /** The raw part of a parsed view is only ever the flag: null or TRUE. */
  lemma ParseViewRawIsFlag(view: Value)
    requires ParseView(view).Ok?
    ensures ParseView(view).value.raw in {Null, Bool(true)}
  {
  }

  /** A named-parts view with raw content: the content becomes the text,
      whatever text the array held, and the flag is set. */
  lemma ParseViewRawMovesToText(entries: seq<Entry>)
    requires !IsSet(entries, IntKey(0)) && IsSet(entries, StrKey("raw"))
    ensures ParseView(Arr(entries)).Ok?
    ensures ParseView(Arr(entries)).value.text == Lookup(entries, StrKey("raw")).value
    ensures ParseView(Arr(entries)).value.text != Null
    ensures ParseView(Arr(entries)).value.raw == Bool(true)
  {
  }

  /** A named-parts view without raw content keeps its text and has no
      flag; a part the array leaves out is null. */
  lemma ParseViewNamedParts(entries: seq<Entry>)
    requires !IsSet(entries, IntKey(0)) && !IsSet(entries, StrKey("raw"))
    ensures ParseView(Arr(entries)) == Ok(View(Coalesce(entries, StrKey("html")), Coalesce(entries, StrKey("text")), Null))
    ensures (forall i :: 0 <= i < |entries| ==> entries[i].key != StrKey("html")) ==> ParseView(Arr(entries)).value.html == Null
  {
  }

  // ---------------------------------------------------------------------------
  // processRecipients()

  /** A recipient given as an object: None when both the email and the
      address are empty, otherwise the email (or, when it is empty, the
      address) with the name, an empty name becoming null. */
  function ObjectRecipient(props: map<string, Value>): (r: Option<(Value, Value)>)
    ensures r.None? <==> Empty(props, "email") && Empty(props, "address")
    ensures r.Some? ==> Truthy(r.value.0)
    ensures r.Some? && !Empty(props, "email") ==> r.value.0 == props["email"]
    ensures r.Some? && Empty(props, "email") ==> r.value.0 == props["address"]
    ensures r.Some? ==> (Empty(props, "name") <==> r.value.1 == Null)
    ensures r.Some? && !Empty(props, "name") ==> r.value.1 == props["name"]
  {
    if Empty(props, "email") && Empty(props, "address") then None
    else
      var address := if !Empty(props, "email") then props["email"] else props["address"];
      var name := if !Empty(props, "name") then props["name"] else Null;
      Some((address, name))
  }

  /** A recipient given as an array: the 'email' entry when the key is
      present (whatever its value), the 'address' entry otherwise; None when
      that value reads as false; the name is the 'name' entry as stored, null
      when absent. */
  function ArrayRecipient(entries: seq<Entry>): (r: Option<(Value, Value)>)
    ensures Lookup(entries, StrKey("email")).Some?
      ==> (r.Some? <==> Truthy(Lookup(entries, StrKey("email")).value))
    ensures Lookup(entries, StrKey("email")).Some? && r.Some?
      ==> r.value.0 == Lookup(entries, StrKey("email")).value
    ensures Lookup(entries, StrKey("email")).None?
      ==> (r.Some? <==> Truthy(Coalesce(entries, StrKey("address"))))
    ensures Lookup(entries, StrKey("email")).None? && r.Some?
      ==> r.value.0 == Lookup(entries, StrKey("address")).value
    ensures r.Some? ==> r.value.1 == Coalesce(entries, StrKey("name"))
  {
    var address := ArrayGet(entries, StrKey("email"), ArrayGet(entries, StrKey("address"), Null));
    if !Truthy(address) then None
    else Some((address, ArrayGet(entries, StrKey("name"), Null)))
  }

  /** The assignment $result[$address] = $name as a key and a value: an
      array or object address is an illegal offset. */
  function Assignment(recipient: (Value, Value)): (r: Result<Option<(Key, Value)>, string>)
    ensures r.Err? <==> ArrayKey(recipient.0).None?
    ensures r.Ok? ==> r.value == Some((ArrayKey(recipient.0).value, recipient.1))
  {
    match ArrayKey(recipient.0)
    case None => Err(IllegalOffset)
    case Some(key) => Ok(Some((key, recipient.1)))
  }

  /** What one entry of a recipient array adds to the result: a string is
      stored under the entry's own key, an object or array recipient under
      its address, and anything else is skipped (Ok(None)). */
  function EntryRecipient(e: Entry): (r: Result<Option<(Key, Value)>, string>)
    ensures r.Err? ==> r.error == IllegalOffset
  {
    match e.value
    case Str(_) => Ok(Some((e.key, e.value)))
    case Obj(props) =>
      if ObjectRecipient(props).None? then Ok(None) else Assignment(ObjectRecipient(props).value)
    case Arr(entries) =>
      if ArrayRecipient(entries).None? then Ok(None) else Assignment(ArrayRecipient(entries).value)
    case _ => Ok(None)
  }

  /** The entry stores `value` under `key`. */
  predicate Assigns(e: Entry, key: Key, value: Value)
  {
    EntryRecipient(e) == Ok(Some((key, value)))
  }

  /** The entry stores something under `key`. */
  predicate Touches(e: Entry, key: Key)
  {
    EntryRecipient(e).Ok? && EntryRecipient(e).value.Some? && EntryRecipient(e).value.value.0 == key
  }

  /** The foreach loop of processRecipients() over a recipient array, entry
      by entry; the first illegal offset ends it with an error. */
  function Collect(entries: seq<Entry>): (r: Result<map<Key, Value>, string>)
    ensures r.Err? ==> r.error == IllegalOffset
  {
    if |entries| == 0 then Ok(map[])
    else
      match Collect(entries[..|entries| - 1])
      case Err(error) => Err(error)
      case Ok(result) =>
        match EntryRecipient(entries[|entries| - 1])
        case Err(error) => Err(error)
        case Ok(None) => Ok(result)
        case Ok(Some(assignment)) => Ok(result[assignment.0 := assignment.1])
  }

  /** processRecipients(): a string is one address without a name, an
      array (or list) is folded entry by entry, a single object is one
      recipient, and anything else gives the empty array. */
  function Recipients(recipients: Value): (r: Result<map<Key, Value>, string>)
    ensures r.Err? ==> r.error == IllegalOffset && (recipients.Arr? || recipients.Obj?)
  {
    match recipients
    case Str(s) => Ok(map[StringKey(s) := Null])
    case Arr(entries) => Collect(entries)
    case Obj(props) =>
      if ObjectRecipient(props).None? then Ok(map[])
      else (
        match Assignment(ObjectRecipient(props).value)
        case Err(error) => Err(error)
        case Ok(assignment) => Ok(map[assignment.value.0 := assignment.value.1]))
    case _ => Ok(map[])
  }

  /** Once the loop has failed, the remaining entries cannot undo it. */
  lemma {:induction false} CollectErrStays(entries: seq<Entry>, n: nat)
    requires n <= |entries| && Collect(entries[..n]).Err?
    ensures Collect(entries) == Collect(entries[..n])
    decreases |entries| - n
  {
    if n < |entries| {
      var next := entries[..n + 1];
      assert next[..|next| - 1] == entries[..n];
      CollectErrStays(entries, n + 1);
    } else {
      assert entries[..n] == entries;
    }
  }

  /** processRecipients() as the source writes it: the result array is
      filled in place by a loop over the recipients. */
  method ProcessRecipients(recipients: Value) returns (r: Result<map<Key, Value>, string>)
    ensures r == Recipients(recipients)
  {
    var result: map<Key, Value> := map[];
    match recipients {
      case Str(s) =>
        result := result[StringKey(s) := Null];
      case Arr(entries) =>
        var i := 0;
        while i < |entries|
          invariant 0 <= i <= |entries|
          invariant Collect(entries[..i]) == Ok(result)
        {
          var next := entries[..i + 1];
          assert next[..|next| - 1] == entries[..i];
          var step := EntryRecipient(entries[i]);
          if step.Err? {
            CollectErrStays(entries, i + 1);
            return Err(step.error);
          }
          if step.value.Some? {
            result := result[step.value.value.0 := step.value.value.1];
          }
          i := i + 1;
        }
        assert entries[..i] == entries;
      case Obj(props) =>
        var recipient := ObjectRecipient(props);
        if recipient.Some? {
          var assignment := Assignment(recipient.value);
          if assignment.Err? {
            return Err(assignment.error);
          }
          result := result[assignment.value.value.0 := assignment.value.value.1];
        }
      case _ =>
    }
    return Ok(result);
  }

  /** The address an object or array entry would be stored under is an
      array or an object, which PHP refuses as an array key. */
  predicate IllegalAddress(e: Entry)
  {
    match e.value
    case Obj(props) => ObjectRecipient(props).Some?
                       && (ObjectRecipient(props).value.0.Arr? || ObjectRecipient(props).value.0.Obj?)
    case Arr(entries) => ArrayRecipient(entries).Some?
                       && (ArrayRecipient(entries).value.0.Arr? || ArrayRecipient(entries).value.0.Obj?)
    case _ => false
  }

  /** One entry fails exactly when its address is illegal; a string entry
      never fails. */
  lemma EntryRecipientErrIff(e: Entry)
    ensures EntryRecipient(e).Err? <==> IllegalAddress(e)
    ensures EntryRecipient(e).Err? ==> EntryRecipient(e).error == IllegalOffset
  {
  }

  /** The loop over a recipient array fails exactly when some entry has an
      array or object as its address. */
  lemma CollectIllegalAddress(entries: seq<Entry>)
    ensures Collect(entries).Err? <==> exists i :: 0 <= i < |entries| && IllegalAddress(entries[i])
  {
    CollectErrIff(entries);
    forall i | 0 <= i < |entries| ensures EntryRecipient(entries[i]).Err? <==> IllegalAddress(entries[i]) {
      EntryRecipientErrIff(entries[i]);
    }
  }

  /** A TRUE email is a truthy address that PHP stores under the integer
      key 1, the same key as a recipient listed at index 1. */
  lemma TrueAddressIsKeyOne(name: Value)
    ensures Recipients(Arr([Entry(IntKey(0), Arr([Entry(StrKey("email"), Bool(true)), Entry(StrKey("name"), name)]))]))
      == Ok(map[IntKey(1) := name])
  {
    var person := [Entry(StrKey("email"), Bool(true)), Entry(StrKey("name"), name)];
    assert Lookup(person, StrKey("email")) == Some(Bool(true));
    assert Lookup(person, StrKey("name")) == Some(name);
    assert ArrayRecipient(person) == Some((Bool(true), name));
    var entries := [Entry(IntKey(0), Arr(person))];
    assert EntryRecipient(entries[0]) == Ok(Some((IntKey(1), name)));
    assert entries[..0] == [];
    assert Collect(entries) == Ok(map[][IntKey(1) := name]);
  }

  /** The loop fails exactly when some entry has an illegal address. */
  lemma {:induction false} CollectErrIff(entries: seq<Entry>)
    ensures Collect(entries).Err? <==> exists i :: 0 <= i < |entries| && EntryRecipient(entries[i]).Err?
  {
    if |entries| > 0 {
      var init := entries[..|entries| - 1];
      CollectErrIff(init);
      if Collect(init).Err? {
        var i :| 0 <= i < |init| && EntryRecipient(init[i]).Err?;
        assert entries[i] == init[i];
      }
      if exists i :: 0 <= i < |entries| && EntryRecipient(entries[i]).Err? {
        var i :| 0 <= i < |entries| && EntryRecipient(entries[i]).Err?;
        if i < |init| {
          assert init[i] == entries[i];
        }
      }
    }
  }

  /** Every key of the result was stored by some entry. */
  lemma {:induction false} CollectKeysFromEntries(entries: seq<Entry>)
    requires Collect(entries).Ok?
    ensures forall k :: k in Collect(entries).value ==> exists i :: 0 <= i < |entries| && Touches(entries[i], k)
  {
    if |entries| > 0 {
      var init := entries[..|entries| - 1];
      CollectKeysFromEntries(init);
      forall k | k in Collect(entries).value
        ensures exists i :: 0 <= i < |entries| && Touches(entries[i], k)
      {
        if k in Collect(init).value {
          var i :| 0 <= i < |init| && Touches(init[i], k);
          assert entries[i] == init[i];
        } else {
          assert Touches(entries[|entries| - 1], k);
        }
      }
    }
  }

  /** The last entry that stores under a key decides its value: a later
      recipient with the same address overwrites an earlier one. */
  lemma {:induction false} CollectLastWins(entries: seq<Entry>, i: nat, key: Key, value: Value)
    requires i < |entries| && Assigns(entries[i], key, value)
    requires forall j :: i < j < |entries| ==> !Touches(entries[j], key)
    requires Collect(entries).Ok?
    ensures key in Collect(entries).value && Collect(entries).value[key] == value
  {
    var init := entries[..|entries| - 1];
    if i < |init| {
      forall j | i < j < |init| ensures !Touches(init[j], key) {
        assert init[j] == entries[j];
      }
      assert init[i] == entries[i];
      CollectLastWins(init, i, key, value);
    }
  }

  /** A numeric email is stored under an integer key, where it overwrites
      the recipient listed at that index. */
  lemma NumericAddressCollides()
    ensures Recipients(Arr([Entry(IntKey(42), Str("Bob")), Entry(IntKey(43), Arr([Entry(StrKey("email"), Str("42"))]))]))
      == Ok(map[IntKey(42) := Null])
  {
    var person := [Entry(StrKey("email"), Str("42"))];
    assert Lookup(person, StrKey("email")) == Some(Str("42"));
    assert Lookup(person, StrKey("name")) == None;
    assert "4"[..0] == "" && "42"[..1] == "4";
    assert StringKey("42") == IntKey(42);
    var entries := [Entry(IntKey(42), Str("Bob")), Entry(IntKey(43), Arr(person))];
    assert EntryRecipient(entries[1]) == Ok(Some((IntKey(42), Null)));
    assert entries[..1][..0] == [];
    assert Collect(entries[..1]) == Ok(map[IntKey(42) := Str("Bob")]);
    assert Collect(entries) == Ok(map[IntKey(42) := Str("Bob")][IntKey(42) := Null]);
    assert map[IntKey(42) := Str("Bob")][IntKey(42) := Null] == map[IntKey(42) := Null];
  }

  /** A string is one address without a name. */
  lemma RecipientsString(s: string)
    ensures Recipients(Str(s)) == Ok(map[StringKey(s) := Null])
  {
  }

  /** No entry after position `i` has the key of entry `i`. */
  predicate LastOfKey(entries: seq<Entry>, i: nat)
    requires i < |entries|
  {
    forall j :: i < j < |entries| ==> entries[j].key != entries[i].key
  }

  /** A list of `address => name` strings never fails, and its keys are
      exactly the result's keys. */
  lemma StringListKeys(entries: seq<Entry>)
    requires forall i :: 0 <= i < |entries| ==> entries[i].value.Str?
    ensures Recipients(Arr(entries)).Ok?
    ensures forall k :: k in Recipients(Arr(entries)).value <==> exists i :: 0 <= i < |entries| && entries[i].key == k
  {
    CollectErrIff(entries);
    CollectKeysFromEntries(entries);
    forall k | exists i :: 0 <= i < |entries| && entries[i].key == k
      ensures k in Recipients(Arr(entries)).value
    {
      var i :| 0 <= i < |entries| && entries[i].key == k;
      var last := LastWithKey(entries, i);
      CollectLastWins(entries, last, k, entries[last].value);
    }
  }

  /** Each `address => name` string of the list comes back unchanged (the
      last one, should PHP's keys repeat). */
  lemma StringListValues(entries: seq<Entry>)
    requires forall i :: 0 <= i < |entries| ==> entries[i].value.Str?
    ensures Recipients(Arr(entries)).Ok?
    ensures forall i :: 0 <= i < |entries| && LastOfKey(entries, i) ==>
      entries[i].key in Recipients(Arr(entries)).value && Recipients(Arr(entries)).value[entries[i].key] == entries[i].value
  {
    CollectErrIff(entries);
    forall i | 0 <= i < |entries| && LastOfKey(entries, i)
      ensures entries[i].key in Recipients(Arr(entries)).value && Recipients(Arr(entries)).value[entries[i].key] == entries[i].value
    {
      CollectLastWins(entries, i, entries[i].key, entries[i].value);
    }
  }

  /** The last position at or after `i` whose entry has the key of entry `i`. */
  function LastWithKey(entries: seq<Entry>, i: nat): (r: nat)
    requires i < |entries|
    ensures i <= r < |entries| && entries[r].key == entries[i].key
    ensures LastOfKey(entries, r)
    decreases |entries| - i
  {
    if exists j :: i < j < |entries| && entries[j].key == entries[i].key then
      var j :| i < j < |entries| && entries[j].key == entries[i].key;
      LastWithKey(entries, j)
    else i
  }

  /** An object entry with neither an email nor an address adds nothing. */
  lemma RecipientsSkipsEmptyObject(entries: seq<Entry>, key: Key, props: map<string, Value>)
    requires Empty(props, "email") && Empty(props, "address")
    ensures Recipients(Arr(entries + [Entry(key, Obj(props))])) == Recipients(Arr(entries))
  {
    var all := entries + [Entry(key, Obj(props))];
    assert all[..|all| - 1] == entries;
  }

  /** An array entry whose email (or, without an email key, whose address)
      reads as false adds nothing. */
  lemma RecipientsSkipsEmptyArray(entries: seq<Entry>, key: Key, person: seq<Entry>)
    requires !Truthy(ArrayGet(person, StrKey("email"), ArrayGet(person, StrKey("address"), Null)))
    ensures Recipients(Arr(entries + [Entry(key, Arr(person))])) == Recipients(Arr(entries))
  {
    var all := entries + [Entry(key, Arr(person))];
    assert all[..|all| - 1] == entries;
  }

  /** Entries of other types (null, booleans, integers) are skipped. */
  lemma RecipientsSkipsOthers(entries: seq<Entry>, key: Key, v: Value)
    requires v.Null? || v.Bool? || v.Int?
    ensures Recipients(Arr(entries + [Entry(key, v)])) == Recipients(Arr(entries))
  {
    var all := entries + [Entry(key, v)];
    assert all[..|all| - 1] == entries;
  }

  /** A single object is read exactly as a one-entry list holding it. */
  lemma RecipientsObjectAsList(props: map<string, Value>, key: Key)
    ensures Recipients(Obj(props)) == Recipients(Arr([Entry(key, Obj(props))]))
  {
    var list := [Entry(key, Obj(props))];
    assert list[..|list| - 1] == [];
    assert Collect(list[..|list| - 1]) == Ok(map[]);
    if ObjectRecipient(props).Some? && Assignment(ObjectRecipient(props).value).Ok? {
      var a := Assignment(ObjectRecipient(props).value).value.value;
      assert map[][a.0 := a.1] == map[a.0 := a.1];
    }
  }

  /** A single object gives one entry when it has an email or an address
      with a legal key, and the empty array when it has neither. */
  lemma RecipientsSingleObject(props: map<string, Value>)
    ensures Empty(props, "email") && Empty(props, "address") ==> Recipients(Obj(props)) == Ok(map[])
    ensures Recipients(Obj(props)).Ok? && !(Empty(props, "email") && Empty(props, "address"))
      ==> |Recipients(Obj(props)).value| == 1
  {
  }

  /** Null, booleans and integers give the empty array. */
  lemma RecipientsOtherTypes(v: Value)
    requires v.Null? || v.Bool? || v.Int?
    ensures Recipients(v) == Ok(map[])
  {
  }

  /** An object falls back to its address when its email is empty, but an
      array does not: a present 'email' key is used even when empty, and
      the recipient is then skipped. */
  lemma ArrayEmailShadowsAddress()
    ensures var props := map["email" := Str(""), "address" := Str("a@b.tld")];
      ObjectRecipient(props) == Some((Str("a@b.tld"), Null))
    ensures var entries := [Entry(StrKey("email"), Str("")), Entry(StrKey("address"), Str("a@b.tld"))];
      ArrayRecipient(entries).None?
  {
    var entries := [Entry(StrKey("email"), Str("")), Entry(StrKey("address"), Str("a@b.tld"))];
    assert Lookup(entries, StrKey("email")) == Some(Str(""));
  }
}
