/**
 The static helpers of class P2P_Util (core/util.php): choosing the first
 registered post type of a list, deciding which side of a connection type a
 post type is on, choosing the meta key used for ordering, and expanding a
 connection type's title into one title per side.

 The host's post-type registry is given as a map from post-type names to
 post-type objects; `get_post_type_object` is a lookup in it.
 */
module P2PUtil {
  import opened Php

  /** The fields of a registered post type that these helpers read. */
  datatype PostTypeObject = PostTypeObject(name: string, labelName: string)

  type Registry = map<string, PostTypeObject>

  /** The host's `get_post_type_object`: null for null or for an unregistered name. */
  function GetPostTypeObject(registry: Registry, name: Option<string>): (o: Option<PostTypeObject>)
    ensures o.Some? <==> name.Some? && name.value in registry
  {
    match name
    case None => None
    case Some(n) => if n in registry then Some(registry[n]) else None
  }

  /** PHP's `array_shift` on a list: the first element (null when empty) and the rest. */
  function ArrayShift(list: seq<string>): (shifted: (Option<string>, seq<string>))
    ensures list == [] ==> shifted == (None, [])
    ensures list != [] ==> shifted.0.Some? && [shifted.0.value] + shifted.1 == list
  {
    if list == [] then (None, []) else (Some(list[0]), list[1..])
  }

  // ---------------------------------------------------------------------------
  // get_first_valid_ptype

  /** Position of the first registered post type in `types`, or `|types|` when none is. */
  function FirstRegistered(registry: Registry, types: seq<string>): (i: nat)
    ensures i <= |types|
    ensures i < |types| ==> types[i] in registry
    ensures forall j :: 0 <= j < i ==> types[j] !in registry
    ensures i == |types| <==> forall t :: t in types ==> t !in registry
  {
    if types == [] then 0
    else if types[0] in registry then 0
    else
      var i := 1 + FirstRegistered(registry, types[1..]);
      assert forall t :: t in types ==> t == types[0] || t in types[1..];
      i
  }

  /**
   `P2P_Util::get_first_valid_ptype`: shift post types off the list until the
   registry knows one; the object of the first registered type, or null when
   the list runs out first.
   */
  method GetFirstValidPtype(registry: Registry, postTypes: seq<string>) returns (ptype: Option<PostTypeObject>)
    ensures ptype.Some? <==> exists t :: t in postTypes && t in registry
    ensures ptype.Some? ==> ptype.value == registry[postTypes[FirstRegistered(registry, postTypes)]]
  {
    var shifted := ArrayShift(postTypes);
    var head, rest := shifted.0, shifted.1;
    assert postTypes != [] ==> rest == postTypes[1..] && head == Some(postTypes[0]);
    ptype := GetPostTypeObject(registry, head);
    while ptype.None? && rest != []
      invariant |rest| <= |postTypes|
      invariant postTypes != [] ==> |rest| < |postTypes|
      invariant rest == postTypes[|postTypes| - |rest|..]
      invariant ptype.None? ==> FirstRegistered(registry, postTypes) >= |postTypes| - |rest|
      invariant ptype.Some? ==> FirstRegistered(registry, postTypes) == |postTypes| - |rest| - 1
      invariant ptype.Some? ==> ptype == Some(registry[postTypes[|postTypes| - |rest| - 1]])
      decreases |rest|
    {
      ghost var before := rest;
      shifted := ArrayShift(rest);
      head, rest := shifted.0, shifted.1;
      assert rest == before[1..] && head == Some(before[0]);
      ptype := GetPostTypeObject(registry, head);
    }
    if ptype.None? {
      assert FirstRegistered(registry, postTypes) == |postTypes|;
    } else {
      assert postTypes[FirstRegistered(registry, postTypes)] in postTypes;
    }
  }

  // ---------------------------------------------------------------------------
  // get_direction

  datatype Direction = From | To {
    /** The direction as the string the source returns. */
    function Name(): string {
      match this
      case From => "from"
      case To => "to"
    }
  }

  /** PHP's `in_array` on a list of post-type names: a scan from the front. */
  function InArray(needle: string, haystack: seq<string>): (found: bool)
    ensures found <==> needle in haystack
  {
    if haystack == [] then false
    else
      assert haystack == [haystack[0]] + haystack[1..];
      haystack[0] == needle || InArray(needle, haystack[1..])
  }

  /**
   `P2P_Util::get_direction`: which side of a connection type `postType` can
   stand on. The "from" side wins when the type is on both; null stands for
   the source's `false`.
   */
  function GetDirection(postType: string, from: seq<string>, to: seq<string>): (d: Option<Direction>)
    ensures d == Some(From) <==> postType in from
    ensures d == Some(To) <==> postType !in from && postType in to
    ensures d == None <==> postType !in from && postType !in to
  {
    if InArray(postType, from) then Some(From)
    else if InArray(postType, to) then Some(To)
    else None
  }

  /** The list of post types on side `d` of a connection type. */
  function Side(d: Direction, from: seq<string>, to: seq<string>): seq<string> {
    match d
    case From => from
    case To => to
  }

  /**
   A direction found for a post type is a side that lists it, and a type
   listed on exactly one side is placed on that side whichever list is
   called "from".
   */
  lemma DirectionSides(postType: string, from: seq<string>, to: seq<string>)
    ensures GetDirection(postType, from, to).Some? ==>
              postType in Side(GetDirection(postType, from, to).value, from, to)
    ensures postType in to && postType !in from ==>
              GetDirection(postType, from, to) == Some(To) && GetDirection(postType, to, from) == Some(From)
    ensures postType in from && postType !in to ==>
              GetDirection(postType, from, to) == Some(From) && GetDirection(postType, to, from) == Some(To)
  {
  }

  // ---------------------------------------------------------------------------
  // get_orderby_key

  /**
   `P2P_Util::get_orderby_key`: the meta key that orders connections seen in
   direction `connectionDir` when ordering is allowed in direction `orderDir`,
   or null (the source's `false`) when there is none.
   */
  function GetOrderbyKey(orderDir: string, connectionDir: string): (key: Option<string>)
    // no key when ordering is switched off or the direction is undecided
    ensures StrFalsy(orderDir) || connectionDir == "any" ==> key == None
    // ordering in any direction, or in this one: the key of this direction
    ensures !StrFalsy(orderDir) && connectionDir != "any" && (orderDir == "any" || orderDir == connectionDir) ==>
              key == Some("_order_" + connectionDir)
    // back-compat: an older configuration names the key itself, honoured on the "from" side only
    ensures key.Some? && key.value != "_order_" + connectionDir ==> connectionDir == "from" && key == Some(orderDir)
    ensures !StrFalsy(orderDir) && connectionDir == "from" && orderDir != "any" && orderDir != "from" ==>
              key == Some(orderDir)
    ensures key == None <==>
              StrFalsy(orderDir) || connectionDir == "any" ||
              (orderDir != "any" && orderDir != connectionDir && connectionDir != "from")
  {
    if StrFalsy(orderDir) || connectionDir == "any" then None
    else if orderDir == "any" || connectionDir == orderDir then Some("_order_" + connectionDir)
    else if connectionDir == "from" then Some(orderDir)
    else None
  }

  /**
   For a direction that `GetDirection` resolved, ordering allowed in "any"
   direction or in that very direction yields that direction's key; on the
   "to" side nothing else yields a key, and on the "from" side only the
   back-compat key does -- which takes any other non-falsy `orderDir` as a
   meta key, even the direction name "to".
   */
  lemma OrderbyKeyOfResolvedDirection(orderDir: string, postType: string, from: seq<string>, to: seq<string>)
    requires GetDirection(postType, from, to).Some?
    ensures var name := GetDirection(postType, from, to).value.Name();
            var key := GetOrderbyKey(orderDir, name);
            && (orderDir == "any" || orderDir == name ==> key == Some("_order_" + name))
            && (name == "to" ==> key == None || key == Some("_order_to"))
            && (name == "from" ==> (key == None <==> StrFalsy(orderDir)))
            && (name == "from" && !StrFalsy(orderDir) && orderDir != "any" && orderDir != "from" ==> key == Some(orderDir))
            && (name == "from" && orderDir == "to" ==> key == Some("to"))
  {
    var name := GetDirection(postType, from, to).value.Name();
    assert |"to"| != |"from"| && |"to"| != |"any"| && |"from"| != |"any"|;
    assert name == "from" || name == "to";
    assert "_order_" + "from" == "_order_from" && "_order_" + "to" == "_order_to";
  }

  // ---------------------------------------------------------------------------
  // get_ptype_label and expand_title

  /**
   `P2P_Util::get_ptype_label`: the plural label of the first post type of a
   list. For an empty list or an unregistered type the source reads a
   property of null, which gives null (PHP warns).
   */
  function PtypeLabel(registry: Registry, ptypes: seq<string>): (plural: Option<string>)
    ensures plural.Some? <==> |ptypes| > 0 && ptypes[0] in registry
    ensures plural.Some? ==> plural.value == registry[ptypes[0]].labelName
  {
    match GetPostTypeObject(registry, if ptypes == [] then None else Some(ptypes[0]))
    case Some(o) => Some(o.labelName)
    case None => None
  }

  /** `sprintf(__('Connected %s'), $label)`, untranslated; a null label prints as "". */
  function ConnectedTitle(plural: Option<string>): string {
    "Connected " + match plural case Some(l) => l case None => ""
  }

  const FromKey: Key := StrKey("from")
  const ToKey: Key := StrKey("to")

  /** One pass of the `foreach` in expand_title: fill `key` unless it is already set. */
  function FillTitle(title: seq<Entry>, key: Key, plural: Option<string>): (r: seq<Entry>)
    ensures IsSet(title, key) ==> r == title
    ensures !IsSet(title, key) ==> Read(r, key) == Str(ConnectedTitle(plural))
    ensures IsSet(r, key)
    ensures forall k :: k != key ==> Read(r, k) == Read(title, k)
    ensures Keys(r) == Keys(title) + {key}
    ensures |r| >= |title| && forall j :: 0 <= j < |title| ==> r[j].key == title[j].key
    ensures DistinctKeys(title) ==> DistinctKeys(r)
  {
    if IsSet(title, key) then
      assert key in Keys(title);
      assert Keys(title) + {key} == Keys(title);
      title
    else Assign(title, key, Str(ConnectedTitle(plural)))
  }

  /** The array a truthy scalar title becomes: that title on both sides. */
  function BothSides(title: Value): (r: seq<Entry>)
    ensures Read(r, FromKey) == title && Read(r, ToKey) == title
    ensures Keys(r) == {FromKey, ToKey} && DistinctKeys(r)
  {
    var r := [Entry(FromKey, title), Entry(ToKey, title)];
    assert IndexOf(r, ToKey) == 1;
    assert r[0] in r && r[1] in r;
    r
  }

  /** The `foreach` of expand_title: fill "from" and then "to" where they are not set. */
  function FillBothSides(given: seq<Entry>, fromPlural: Option<string>, toPlural: Option<string>): (r: seq<Entry>)
    ensures IsSet(r, FromKey) && IsSet(r, ToKey)
    ensures IsSet(given, FromKey) ==> Read(r, FromKey) == Read(given, FromKey)
    ensures !IsSet(given, FromKey) ==> Read(r, FromKey) == Str(ConnectedTitle(toPlural))
    ensures IsSet(given, ToKey) ==> Read(r, ToKey) == Read(given, ToKey)
    ensures !IsSet(given, ToKey) ==> Read(r, ToKey) == Str(ConnectedTitle(fromPlural))
    ensures forall k :: k != FromKey && k != ToKey ==> Read(r, k) == Read(given, k)
    ensures Keys(r) == Keys(given) + {FromKey, ToKey}
    ensures |r| >= |given| && forall j :: 0 <= j < |given| ==> r[j].key == given[j].key
    ensures DistinctKeys(given) ==> DistinctKeys(r)
  {
    var afterFrom := FillTitle(given, FromKey, toPlural);
    assert Read(afterFrom, ToKey) == Read(given, ToKey);
    var afterTo := FillTitle(afterFrom, ToKey, fromPlural);
    assert Read(afterTo, FromKey) == Read(afterFrom, FromKey);
    afterTo
  }

  /**
   The title `expand_title` returns: a truthy non-array title is used for
   both sides; otherwise (a falsy title counts as an empty array) the "from"
   entry and then the "to" entry are filled when not set, each from the
   label of the other side's first type.
   */
  function ExpandedTitle(title: Value, registry: Registry, from: seq<string>, to: seq<string>): (r: Value)
    ensures r.Arr?
    ensures IsSet(r.entries, FromKey) && IsSet(r.entries, ToKey)
    // a single truthy title names both sides, and nothing else is in the array
    ensures !Falsy(title) && !title.Arr? ==>
              Read(r.entries, FromKey) == title && Read(r.entries, ToKey) == title &&
              Keys(r.entries) == {FromKey, ToKey}
    // set entries are kept, missing ones filled from the other side's label
    ensures Falsy(title) || title.Arr? ==>
              var given := if Falsy(title) then [] else title.entries;
              && (IsSet(given, FromKey) ==> Read(r.entries, FromKey) == Read(given, FromKey))
              && (!IsSet(given, FromKey) ==> Read(r.entries, FromKey) == Str(ConnectedTitle(PtypeLabel(registry, to))))
              && (IsSet(given, ToKey) ==> Read(r.entries, ToKey) == Read(given, ToKey))
              && (!IsSet(given, ToKey) ==> Read(r.entries, ToKey) == Str(ConnectedTitle(PtypeLabel(registry, from))))
    // every other entry is untouched, and the given keys keep their places
    ensures Falsy(title) || title.Arr? ==>
              var given := if Falsy(title) then [] else title.entries;
              && (forall k :: k != FromKey && k != ToKey ==> Read(r.entries, k) == Read(given, k))
              && Keys(r.entries) == Keys(given) + {FromKey, ToKey}
              && (forall j :: 0 <= j < |given| ==> j < |r.entries| && r.entries[j].key == given[j].key)
              && (DistinctKeys(given) ==> DistinctKeys(r.entries))
  {
    if !Falsy(title) && !title.Arr? then
      Arr(BothSides(title))
    else
      var given := if Falsy(title) then [] else title.entries;
      Arr(FillBothSides(given, PtypeLabel(registry, from), PtypeLabel(registry, to)))
  }

  /** Expanding an already expanded title changes nothing. */
  lemma ExpandTitleIdempotent(title: Value, registry: Registry, from: seq<string>, to: seq<string>)
    ensures var once := ExpandedTitle(title, registry, from, to);
            ExpandedTitle(once, registry, from, to) == once
  {
    var once := ExpandedTitle(title, registry, from, to);
    assert once.entries != [] by { assert FromKey in Keys(once.entries); }
    assert !Falsy(once);
  }

  /**
   `P2P_Util::expand_title`: normalise a falsy title to an empty array,
   return a truthy scalar title for both sides, and otherwise fill the
   "from" and "to" entries in a loop.
   */
  method ExpandTitle(title: Value, registry: Registry, from: seq<string>, to: seq<string>) returns (r: Value)
    ensures r == ExpandedTitle(title, registry, from, to)
  {
    var t := title;
    if Falsy(t) {
      t := Arr([]);
    }
    if !Falsy(t) && !t.Arr? {
      return Arr([Entry(FromKey, t), Entry(ToKey, t)]);
    }
    ghost var given := t.entries;
    ghost var fromPlural, toPlural := PtypeLabel(registry, from), PtypeLabel(registry, to);
    var keys := [FromKey, ToKey];
    assert keys[0] != keys[1] by { assert |"from"| != |"to"|; }
    for i := 0 to |keys|
      invariant t.Arr?
      invariant i == 0 ==> t.entries == given
      invariant i == 1 ==> t.entries == FillTitle(given, FromKey, toPlural)
      invariant i == 2 ==> t.entries == FillBothSides(given, fromPlural, toPlural)
    {
      var key := keys[i];
      ghost var before := t.entries;
      if IsSet(t.entries, key) {
        continue;
      }
      var otherSide := if key == FromKey then to else from;
      t := Arr(Assign(t.entries, key, Str(ConnectedTitle(PtypeLabel(registry, otherSide)))));
      assert t.entries == FillTitle(before, key, PtypeLabel(registry, otherSide));
    }
    r := t;
  }
}
