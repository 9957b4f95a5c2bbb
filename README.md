# js-toaster in Dafny

A model of the `Toaster` class of js-toaster, a small browser library that
shows short messages ("toasts") in a container element and removes each one
when its timer expires. The repository has two revisions of the class, and
both are modelled:

- `js-toaster.js` is the current one:
  - it validates an options object (default timeout, toaster and toast id prefixes);
  - it keeps a registry `#toasts` of id → `{message, timeout}`;
  - it prepends one element per new toast and removes only that element later;
  - it cancels a toast's timer when the toast is removed by hand.
- `toaster.js` is the earlier one:
  - it keeps a registry of id → message;
  - it rebuilds the container's children after every change;
  - it never cancels a timer, so the expiry of a toast removed by hand finds its id already gone.

The host is abstracted away:

- The JS object is `JsObject.PlainObject` (a key sequence in insertion order, plus a map).
  - Generated ids always contain a hyphen (`Uuid.GeneratedIdIsNotIndexKey`).
  - So `Object.keys` order is insertion order.
- The container element is a sequence of `Dom.Element(id, text)`.
- The host's pending timers are a map from handle to `Timers.Timer(target, delay)`, inside each class.
  - Expiry is an explicit `Fire(h)` step.
- The random bytes `crypto.getRandomValues` would supply are an input: 31 bytes per id.

Modules:

- `Wrappers`: `Option` and `Completion`. `Completion` is a normal value or a thrown `TypeError`.
- `JsObject`: the registry object: assignment, `delete`, key order.
- `Dom`: the children of the container: the newest-first layout and remove-by-id.
- `Timers`: the delay rule and the pending timer map.
- `Uuid`: `#getUUIDv4` and `#getId`.
- `Options`: `#getValidatedOptions`.
- `JsToaster`: the `js-toaster.js` class.
  - Its invariant `Consistent` has five conjuncts.
  - The options are validated ones (`Options.WellFormed`).
  - The registry is well formed: no duplicate keys, and the keys listed are exactly the entries.
  - The children are exactly the live toasts, newest first.
  - Live toasts and pending timers correspond one to one (`TimersMatch`): each live toast's recorded handle is pending and targets it, and every pending timer is some live toast's recorded one.
  - Every pending handle is below `nextHandle`, the next one the host hands out.
- `LegacyToaster`: the `toaster.js` class.
  - Its invariant `Consistent` has six conjuncts.
  - The default timeout is positive.
  - The registry is well formed.
  - The children are the full rebuild of the registry.
  - Every live toast has at least one pending timer.
  - No two pending timers target the same id.
  - Every pending handle is below `nextHandle`.

## Model

| member | source | states |
|---|---|---|
| JsObject.Set | js-toaster.js:161-166 | definition, no contract: property assignment `o[k] = v`, which keeps an existing key in place and appends a new one; also used for toaster.js:39 |
| JsObject.Without | js-toaster.js:178 | definition, no contract: the key order after `delete`, each occurrence of the key dropped |
| JsObject.Delete | js-toaster.js:178 | definition, no contract: `delete o[k]`, which takes the key out of the key order and the entries; also used for toaster.js:48 |
| JsObject.Empty | js-toaster.js:26 | `{}` is a well-formed object with no keys |
| JsObject.SetWf | js-toaster.js:161-166 | assigning a key keeps the object well formed and maps the key to the new value. A new key goes last in key order, and an existing key keeps its place |
| JsObject.DeleteWf | js-toaster.js:178 | `delete` keeps the object well formed and removes exactly that key. The key count falls by one for a present key, and an absent key leaves the object unchanged |
| JsObject.DeleteIdempotent | js-toaster.js:176-178 | deleting a key twice is the same as deleting it once |
| JsObject.DeleteUndoesSet | js-toaster.js:161-178 | deleting a freshly added key gives back the object as it was before the addition |
| JsObject.WithoutMembers | js-toaster.js:178 | after a key is removed from the key order, the remaining keys are the old ones minus that key |
| JsObject.WithoutAbsent | js-toaster.js:176 | removing a key that is not in the key order changes nothing |
| JsObject.WithoutAt | js-toaster.js:194-195 | removing the key at position i of a duplicate-free key order splices out exactly that position, so the other keys keep their order |
| JsObject.WithoutDistinct | js-toaster.js:178 | removing a key keeps the key order duplicate-free |
| JsObject.WithoutLength | js-toaster.js:178 | removing a key shortens the key order by one exactly when the key was present |
| JsObject.WfSize | js-toaster.js:123 | the number of keys `Object.keys` lists equals the number of entries |
| Dom.Render | toaster.js:59-65 | definition, no contract: the children after prepending one element per key in key order, so the last key comes first; also the children js-toaster.js:154-158 builds one prepend at a time |
| Dom.RemoveFirst | js-toaster.js:184 | definition, no contract: `querySelector("#" + id).remove()`, which removes the first child in document order carrying the id, or nothing |
| Dom.HasChild | js-toaster.js:184-186 | definition, no contract: whether `querySelector` finds a child, the case that decides whether the `catch` branch runs |
| Dom.RenderLayout | toaster.js:59-65 | the children built by prepending one element per key are one per key, in reverse key order, each carrying its key's text |
| Dom.RenderAppend | js-toaster.js:154-158 | prepending the element of a key appended last gives the children of the extended key order |
| Dom.RenderFrame | toaster.js:59-64 | the children depend only on the texts of the listed keys |
| Dom.RenderAbsent | js-toaster.js:184 | no child carries the id of an unlisted key |
| Dom.RenderWithout | js-toaster.js:184 | removing the first element with a key's id from the rendered children gives the children of the key order without that key |
| Dom.RemoveFirstAbsent | js-toaster.js:184-186 | removing an id that no child carries changes nothing |
| Dom.RemoveFirstAt | js-toaster.js:184 | removing an id whose first carrier is at position i drops exactly that child |
| Timers.Delay | js-toaster.js:163-165 | the scheduled delay is the timeout argument when it is present and positive, and the default otherwise. It is always positive. The same rule is used at toaster.js:37-42 |
| Uuid.Zeros | js-toaster.js:37 | definition, no contract: the run of zeros in the decimal form of `1e7`, `1e3` and the other template numbers |
| Uuid.Decimal | js-toaster.js:37 | definition, no contract: the decimal form of a digit times a power of ten, as the number coerces to a string |
| Uuid.Template | js-toaster.js:37 | definition, no contract: `[1e7] + -1e3 + -4e3 + -8e3 + -1e11`, the string `10000000-1000-4000-8000-100000000000` |
| Uuid.IsReplaced | js-toaster.js:37 | definition, no contract: the characters matched by `/[018]/g` |
| Uuid.DigitValue | js-toaster.js:39-40 | definition, no contract: the number a matched character `c` coerces to in `c ^ …` and `c / 4` |
| Uuid.Nibble | js-toaster.js:39-41 | `c ^ (r & (15 >> (c / 4)))` is below 16 for every byte, and lies in 8..11 for the template character `8` |
| Uuid.Hex | js-toaster.js:41 | `toString(16)` of a value below 16 is one lowercase hex digit |
| Uuid.ReplaceDigits | js-toaster.js:37-42 | replacing each `0`, `1` and `8` of a template, left to right, with one random byte each yields a string of the template's shape |
| Uuid.ByteFor | js-toaster.js:39-41 | for each template character and each output character its shape allows, some byte produces that output |
| Uuid.Preimage | js-toaster.js:37-42 | every string of the template's shape is the replacement result for some byte sequence |
| Uuid.TemplateAt | js-toaster.js:37 | the template `10000000-1000-4000-8000-100000000000` holds, offset by offset, the characters listed for each position |
| Uuid.TemplateLayout | js-toaster.js:37 | the template has 36 characters and 31 replaced ones. A string has the template's shape exactly when it is a lowercase version 4 UUID |
| Uuid.ReplacedTemplate | js-toaster.js:37-40 | the template has 31 characters in `[018]`, so one id consumes 31 random bytes |
| Uuid.GetUuidV4 | js-toaster.js:35-43 | `#getUUIDv4` always returns a lowercase version 4 UUID (hyphens at 8, 13, 18, 23; `4` at 14; one of `89ab` at 19) |
| Uuid.UuidV4Complete | js-toaster.js:35-43 | every lowercase version 4 UUID is returned for some choice of random bytes |
| Uuid.GetId | js-toaster.js:31-33 | `#getId(prefix)` is the prefix followed by a version 4 UUID |
| Uuid.GeneratedIdIsNotIndexKey | js-toaster.js:140 | a generated id is never an array-index key, so `Object.keys` lists the ids in insertion order |
| Options.IsWhitespace | js-toaster.js:53 | definition, no contract: the characters the JavaScript `\s` class matches |
| Options.IsPositiveNumber | js-toaster.js:52 | definition, no contract: `typeof val === "number" && val > 0` |
| Options.IsValidId | js-toaster.js:53 | definition, no contract: a non-empty string with no `\s` character |
| Options.Passes | js-toaster.js:58-66 | definition, no contract: runs the `sanitization` check named in a default table entry |
| Options.DefaultOptions | js-toaster.js:55-68 | definition, no contract: the default table `defaultTimeout` → 10000, `toasterPrefix` → `"toaster-"`, `toastPrefix` → `"toast-"`, in that key order, each with its check |
| Options.Chosen | js-toaster.js:71-73 | definition, no contract: the supplied value if it is an own property passing the key's check, otherwise the key's default |
| Options.Reduce | js-toaster.js:70-76 | the reduce adds exactly the listed keys, gives each the value chosen by its rule, and leaves keys already present untouched |
| Options.DefaultOptionsFacts | js-toaster.js:55-68 | the default table lists `defaultTimeout`, `toasterPrefix` and `toastPrefix` once each, with defaults that pass their own checks |
| Options.GetValidatedOptions | js-toaster.js:51-77 | the result has exactly the three known keys, a positive number as the timeout, and non-empty whitespace-free strings as the prefixes |
| Options.DefaultTimeoutOf | js-toaster.js:52 | the validated default timeout is positive |
| Options.ToasterPrefixOf | js-toaster.js:53 | the validated toaster prefix is non-empty and has no `\s` character |
| Options.ToastPrefixOf | js-toaster.js:53 | the validated toast prefix is non-empty and has no `\s` character |
| Options.ValidatedOptionRule | js-toaster.js:70-73 | each known key takes the supplied value if present and passing its check, and otherwise `10000`, `"toaster-"` or `"toast-"` |
| Options.UnknownKeyIgnored | js-toaster.js:70-76 | adding or changing an unknown key of the input does not change the result |
| Options.ValidationIdempotent | js-toaster.js:51-77 | validating validated options changes nothing |
| Options.NegativeTimeoutReplaced | js-toaster.js:56-59 | `{defaultTimeout: -5}` validates to the three defaults |
| JsToaster.Messages | js-toaster.js:157 | definition, no contract: the text each live toast's element shows, its record's `message` |
| JsToaster.Children | js-toaster.js:154-158 | definition, no contract: the children of a container holding exactly the live toasts, newest first |
| JsToaster.TimersMatch | js-toaster.js:161-166 | definition, no contract: the one-to-one correspondence between live toasts' recorded handles and pending timers |
| JsToaster.Consistent | js-toaster.js:149-196 | definition, no contract: the class invariant; its five conjuncts are listed above |
| JsToaster.OneTimerPerToast | js-toaster.js:161-166 | under the invariant, each live toast is the target of exactly one pending timer: the one recorded in it |
| JsToaster.NoToastsNoTimers | js-toaster.js:193-196 | with no toasts left, no timer is pending |
| JsToaster.TimersMatchAdd | js-toaster.js:161-166 | recording a new toast with a fresh handle scheduled for it keeps toasts and timers in one-to-one correspondence |
| JsToaster.TimersMatchDelete | js-toaster.js:177-178 | cancelling a toast's timer and deleting the toast keeps the correspondence |
| JsToaster.ChildrenAdd | js-toaster.js:154-158 | prepending the new element gives the children of the registry with the new toast added |
| JsToaster.ChildrenDelete | js-toaster.js:178-184 | removing the toast's element gives the children of the registry with the toast deleted |
| JsToaster.AddKeepsConsistent | js-toaster.js:149-168 | adding a fresh toast, prepending its element and scheduling its timer keep the invariant |
| JsToaster.RemoveKeepsConsistent | js-toaster.js:175-180 | clearing a live toast's timer, deleting it and removing its element keep the invariant |
| JsToaster.RemoveAbsentIsNoOp | js-toaster.js:176 | for an id that is not live, neither `delete` nor element removal would change anything |
| JsToaster.Toaster.constructor | js-toaster.js:23-29 | the new toaster has validated options, the id `toasterPrefix` + UUID, and no toasts, children or timers |
| JsToaster.Toaster.SetTimeout | js-toaster.js:163-165 | the host hands out a fresh handle and records the pending timer |
| JsToaster.Toaster.ClearTimeout | js-toaster.js:177 | the handle is no longer pending, and the other timers are untouched |
| JsToaster.Toaster.AddToast | js-toaster.js:149-168 | it returns `toastPrefix` + UUID. The id goes last in key order with its message and its fresh timer handle, and the other entries are unchanged. Its element becomes the first child, one timer with the `Delay` rule is added, and the invariant holds |
| JsToaster.Toaster.RemoveToastElement | js-toaster.js:182-188 | it removes the first child with that id. It reports an error, without failing, exactly when no such child exists |
| JsToaster.Toaster.RemoveToast | js-toaster.js:175-180 | an unknown id changes nothing. A live id loses its entry, its element and its timer, the count falls by one, and the other ids keep their order. The id is absent afterwards, so a second call is a no-op |
| JsToaster.Toaster.RemoveAllToasts | js-toaster.js:193-196 | the loop over a snapshot of the keys leaves no toasts, no pending timers and no children |
| JsToaster.Toaster.Fire | js-toaster.js:163-165 | the expiry of a pending timer removes its toast, element and handle. A handle that is not pending changes nothing |
| JsToaster.Toaster.GetToastCount | js-toaster.js:122-124 | the count equals the number of ids, of entries and of children |
| JsToaster.Toaster.GetAllToastIds | js-toaster.js:139-141 | the ids in insertion order, without duplicates. The children are those ids in reverse, each carrying its message |
| JsToaster.Toaster.GetToastMessage | js-toaster.js:131-133 | the message of a live id. Any other id throws a `TypeError` |
| LegacyToaster.EffectiveDefaultTimeout | toaster.js:6 | the constructor's default timeout is the argument when it is positive, and 10000 otherwise |
| LegacyToaster.Consistent | toaster.js:37-50 | definition, no contract: the class invariant, with a positive default, a well-formed registry, children equal to the rebuild of the registry, at least one pending timer per live toast, at most one pending timer per id, and handles below `nextHandle` |
| LegacyToaster.Timed | toaster.js:40-42 | definition, no contract: every live toast is the target of some pending timer |
| LegacyToaster.OnePerId | toaster.js:38-42 | definition, no contract: no two pending timers target the same id |
| LegacyToaster.HandlesBelow | toaster.js:40 | definition, no contract: every pending handle is below the next one the host hands out |
| LegacyToaster.TimersAfterAdd | toaster.js:38-42 | scheduling a fresh handle for a new toast whose id no pending timer targets keeps every live toast timed, at most one timer per id, and every handle below the next one |
| LegacyToaster.RebuildAfterAdd | toaster.js:37-44 | rebuilding after adding a fresh toast gives the old children with the new element first, the same children `js-toaster.js` reaches by one prepend |
| LegacyToaster.RebuildAfterDelete | toaster.js:46-50 | rebuilding after a delete gives the old children without that toast's element |
| LegacyToaster.AddKeepsConsistent | toaster.js:37-44 | adding a toast whose id no pending timer targets, plus one timer, keeps the invariant |
| LegacyToaster.RemoveKeepsConsistent | toaster.js:46-50 | deleting a toast and rebuilding keep the invariant, with the timers left pending |
| LegacyToaster.ExpiryKeepsConsistent | toaster.js:40-42 | once a timer's target is gone, dropping that timer keeps the invariant |
| LegacyToaster.Toaster.constructor | toaster.js:5-11 | the effective default timeout, a bare version 4 UUID as the id, and no toasts, children or timers |
| LegacyToaster.Toaster.UpdateToasts | toaster.js:53-66 | the clearing loop empties the container. The filling loop then leaves one child per entry, in reverse key order, with its message |
| LegacyToaster.Toaster.AddToast | toaster.js:37-44 | the new UUID maps to the message, last in key order, and the other entries are unchanged. One timer with the `Delay` rule and the default `defaultTimeout` is scheduled, and the new element ends up first |
| LegacyToaster.Toaster.RemoveToast | toaster.js:46-50 | an unknown id changes nothing, with no rebuild. A live id loses its entry and element. No timer is cancelled and the id is absent afterwards |
| LegacyToaster.Toaster.Fire | toaster.js:40-42 | the expiry removes its target if that id is still live. It is a no-op for an id removed earlier, apart from retiring the handle |

## Left out

- The DOM is not modelled beyond the ordered list of child ids and texts: element creation, CSS classes, `appendChild` onto the parent element, and `#initToaster`.
- `querySelector("#" + id)` throws on an id that is not a valid CSS selector (a prefix starting with a digit, say). The model treats the lookup as "remove the child if present". A prefix can also pass `isValidId` and still carry CSS syntax. `toast.` gives a valid selector that matches nothing, so the element stays. `z,.toast,` can match and remove another toast's element. Under this abstraction, `Consistent`'s `children == Children(toasts)` holds in the source only for prefixes that are plain CSS identifiers.
- Timers are not modelled in real time. They are pending handles with an explicit `Fire` step, so the order in which they expire is left to the caller of `Fire`.
- `crypto.getRandomValues` is not modelled. The random bytes are an argument, and the freshness of a generated id is a precondition of `AddToast` in both classes.
- JS coercions and dynamic typing are not modelled. Messages are strings and timeouts are integers or absent; floating-point or non-numeric timeouts and `NaN` are not modelled. Option values are a number, a string or something else.
- `\s` is not modelled as a regular expression. It is the fixed set of JavaScript whitespace characters.
- JsToaster.Toaster.AddToast: takes the message already converted by `String(message)`.
- JsToaster.Toaster.GetToastMessage: treats every id that is not an own key as throwing. It does not model inherited properties such as `"toString"`, for which the source returns `undefined` instead.
- `getOptions`, `getToasterId`, `getToasts` and `getToasterElement` only return internal state. The aliasing through the returned objects, and outside writes to the public `defaultTimeout` field of `toaster.js`, are not modelled. In `LegacyToaster` the field is a constant.
- The `console.error` diagnostic of `#removeToastElement` is modelled only as the boolean `reported`.
- The demo page `script.js` is not part of this model.
