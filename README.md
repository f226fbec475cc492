# Posts 2 Posts: connection-type helpers (core/util.php)

A Dafny model of the helper routines that the Posts 2 Posts plugin uses when
it sets up a connection type between post types:

- `P2P_Util::get_first_valid_ptype` walks a list of post-type names and returns
  the post-type object of the first one the host's post-type registry knows
  (null when there is none);
- `P2P_Util::get_direction` decides whether a post type is on the "from" side
  or the "to" side of a connection type, or on neither;
- `P2P_Util::get_orderby_key` picks the meta key that orders connections;
- `P2P_Util::get_ptype_label` and `P2P_Util::expand_title` turn a connection
  type's optional title into a title for each side;
- `_p2p_meta_sql_helper` turns a key/value filter into a list of meta-query
  clauses before it calls the host's SQL builder;
- `_p2p_pluck` takes one entry out of an array that is passed by reference.

The model has three modules:

- `Php` (php.dfy) holds the PHP values these helpers handle. Arrays are
  ordered lists of key/value entries. The module gives the meaning of
  `$a[$k]` reads, `isset`, assignment and `unset`, and proves their
  properties.
- `P2PUtil` (p2p_util.dfy) holds the static helpers of `P2P_Util`. The
  host's post-type registry is a parameter: a map from post-type names to
  objects that carry the plural label.
- `UtilFunctions` (util_functions.dfy) holds the two free functions. The
  by-reference array of `_p2p_pluck` is an object (`ArrayVar`) whose
  `entries` field the method updates.

The code runs step by step in four places, and the model follows it there.
`GetFirstValidPtype` is a loop that shifts the list. `ExpandTitle` is a loop
over the keys "from" and "to". `NormaliseMetaQuery` is a loop that appends
clauses. `Pluck` is a method that changes the caller's array. Each method is
proved equal to a function (`FirstRegistered`, `ExpandedTitle`, `MetaQuery`,
`Read`/`Unset`), and the lemmas about that function carry its properties.

Where the code and its documentation differ, the model follows the code:

- In `get_orderby_key`, "ordering switched off" is PHP's `!$order_dir`.
  This is true for the empty string and also for the string "0".
- The back-compat branch returns `order_dir` unchanged for any direction
  string other than "any" and "from". This includes "to": with ordering
  allowed only in the "to" direction, a connection seen from the "from" side
  gets the meta key "to". `OrderbyKeyOfResolvedDirection` states this.
- `get_ptype_label` on an empty list or an unregistered type reads a property
  of null. That gives null, and the generated title is then "Connected "
  followed by nothing.

## Model

| member | source | states |
|---|---|---|
| `Php.KeyValue` | core/util.php:161 | the `$key` that `foreach` binds is an integer or a string, and it gives back the array key it came from |
| `Php.StrFalsy` | core/util.php:75 | a string is false for `!` exactly when it has at most one character and that character is "0": the strings "" and "0" |
| `Php.Falsy` | core/util.php:93-96 | `!$v` holds exactly for null, false, 0, "", "0" and the empty array |
| `Php.IsSet` | core/util.php:104 | `isset($a[$k])` implies the key is present; on an array with distinct keys it holds exactly when the key's entry has a non-null value |
| `Php.Read` | core/util.php:173 | `$arr[$key]` reads null for a missing key; otherwise it is the value of an entry with that key, and the only such value when keys are distinct |
| `Php.Assign` | core/util.php:109-112 | after `$a[$k] = $v` the key reads `$v`, every other key reads as before, the key set gains `$k`, existing keys keep their positions, and distinct keys stay distinct |
| `Php.Unset` | core/util.php:174 | `unset` keeps exactly the entries whose key differs from the removed one; the key set loses that key |
| `Php.UnsetKeepsOthers` | core/util.php:174 | after `unset($a[$k])` every other key reads the same value as before |
| `Php.UnsetSplices` | core/util.php:174 | on an array with distinct keys, `unset` of a present key removes exactly that entry and keeps the order of the rest |
| `Php.UnsetDistinct` | core/util.php:174 | `unset` keeps keys distinct, and it shrinks the array by one exactly when the key was present |
| `P2PUtil.ArrayShift` | core/util.php:41 | `array_shift` of an empty list gives null and an empty list; otherwise the first element and a rest that, put back behind it, is the original list |
| `P2PUtil.FirstRegistered` | core/util.php:39-45 | the index of the first registered post type: every earlier type is unregistered; the index is the length exactly when no type is registered |
| `P2PUtil.GetFirstValidPtype` | core/util.php:39-45 | the do-while shift loop returns an object exactly when some listed type is registered, and that object is the registry's entry for the first registered type; otherwise null, also for an empty list |
| `P2PUtil.InArray` | core/util.php:57-59 | the front-to-back scan of `in_array` finds a name exactly when the list contains it |
| `P2PUtil.GetDirection` | core/util.php:56-66 | "from" exactly when the type is in the from list, even if it is also in the to list; "to" exactly when it is in the to list only; false exactly when it is in neither |
| `P2PUtil.DirectionSides` | core/util.php:56-66 | the direction returned names a side whose list contains the type; a type on exactly one side (from only, or to only) is placed on that side, and on the other one when the two lists are swapped |
| `P2PUtil.GetOrderbyKey` | core/util.php:74-86 | false whenever `order_dir` is falsy ("" or "0") or `connection_dir` is "any"; otherwise `"_order_" + connection_dir` when `order_dir` is "any" or equals `connection_dir`; on the "from" side any other non-falsy `order_dir` is returned unchanged (back-compat); any key other than `"_order_" + connection_dir` is `order_dir` itself on the "from" side; false exactly in the listed cases |
| `P2PUtil.OrderbyKeyOfResolvedDirection` | core/util.php:74-86 | for a direction that `get_direction` resolved, "any" or that direction gives that direction's key; the "to" side gets false or "_order_to" only; the "from" side gets false exactly when `order_dir` is falsy, and `order_dir` itself for any other value than "any" and "from" -- so "to" seen from the "from" side becomes the key "to" |
| `P2PUtil.PtypeLabel` | core/util.php:88-90 | the plural label of the first listed type when that type is registered; null for an empty list or an unregistered type |
| `P2PUtil.FillTitle` | core/util.php:103-113 | one pass of the loop: a key already set is left alone; a missing or null key gets "Connected " + label; the key is then set and nothing else changes |
| `P2PUtil.BothSides` | core/util.php:96-101 | a truthy scalar title becomes the array with exactly "from" and "to", both equal to it |
| `P2PUtil.FillBothSides` | core/util.php:103-113 | after the loop both keys are set; set entries are kept; a missing "from" gets the label of the to side, a missing "to" gets the label of the from side; other entries are untouched and given keys keep their places |
| `P2PUtil.ExpandedTitle` | core/util.php:92-116 | the expanded title is always an array with "from" and "to" set; a truthy scalar title fills both; a falsy title is treated as an empty array; an array title is completed as `FillBothSides` states |
| `P2PUtil.ExpandTitleIdempotent` | core/util.php:92-116 | expanding an already expanded title returns it unchanged |
| `P2PUtil.ExpandTitle` | core/util.php:92-116 | the method (falsy check, scalar return, `foreach` over "from" and "to") returns exactly `ExpandedTitle` |
| `UtilFunctions.Compact` | core/util.php:162 | `compact('key', 'value')` is an array of exactly two distinct keys, "key" and "value", holding the key (as an integer or string value) and the value |
| `UtilFunctions.ClauseRoundTrip` | core/util.php:162 | the `compact('key', 'value')` clause gives back the key/value pair it was built from |
| `UtilFunctions.MetaQuery` | core/util.php:155-164 | a filter with a non-null entry at index 0 is kept as is; otherwise the result is a list (keys 0..n-1) of the same length, clause i is an array with exactly the two keys "key" and "value", and it gives back the filter's i-th pair, in iteration order |
| `UtilFunctions.MetaQueryIdempotent` | core/util.php:155-164 | normalising an already normalised meta query changes nothing |
| `UtilFunctions.NormaliseMetaQuery` | core/util.php:155-164 | the `foreach` that appends one clause per pair builds exactly `MetaQuery` |
| `UtilFunctions.Pluck` | core/util.php:172-176 | returns the old `$arr[$key]` (null if absent); afterwards the key is absent and not set; every other key reads as before; the array is the old one with that entry removed; distinct keys stay distinct |

## Left out

- `P2P_Util::find_post_type` (core/util.php:17-37) is not part of this model. It depends on PHP's loose casts of mixed values and on the host calls `get_post` and `post_type_exists`.
- `_P2P_Connections::get` and `capture` (core/util.php:124-147) are not part of this model. They run a host `WP_Query` and pass its posts out through a filter hook and a static field.
- The call to the host's `get_meta_sql` and the `$wpdb` global in `_p2p_meta_sql_helper` (core/util.php:153, 166) are left out. The model stops at the meta query passed to that call.
- The host's post-type registry, `get_post_type_object` and the label object are reduced to a map from names to a record with the plural label. The registry does not change during a call.
- Translation by `__` is the identity. `sprintf` is modelled only for the format "Connected %s" with one string or null argument. Localisation is not modelled.
- PHP notices and warnings are not modelled. Examples: reading a missing array key, or a property of null in `get_ptype_label`. Only the resulting null value is modelled.
- PHP's loose `==` and `in_array` compare two numeric strings by number. The model compares post-type names and direction strings by equality. These are never numeric.
- `P2PUtil.GetOrderbyKey`: both directions are strings. A boolean `true` for `order_dir` (which loose `==` would treat as "any") is not modelled. `false` and null behave like "" here.
- Array keys are taken as already normalised (PHP stores "5" as the integer key 5). Float and object values are not in the value model.
- `from` and `to` in `expand_title` are lists. So `$ptypes[0]` is their first element; arrays whose first entry has a key other than 0 are not modelled.
- `$meta_query[] = …` is modelled for the only case that occurs: appending to a list, which uses the key equal to its length.
