# Kemet Garment site: contact intake, translation service, lightbox

A Dafny model of the three pieces of the garment manufacturer's marketing
site that carry behaviour worth stating precisely:

- **Contact intake** (`contact_api.dfy`, module `ContactApi`): the serverless
  endpoint's `escapeHtml`, its form validator `validateFormData` (honeypot
  trap, required fields, trimming, e-mail pattern, three minimum lengths, first
  failing rule wins), and the guard chain of `handler` (method, body-size cap,
  validation, mail-transport configuration) with the status code and message
  each guard answers with.
- **Translation service** (`translation.dfy`, module `Translation`): a language
  pack as a tree of strings, the dotted-key lookup `get` with its fall-back to
  the key, and the `loadLanguage` / `switchLanguage` transition that replaces
  the pack, remembers the language and sets the document's `dir` (`rtl` exactly
  for Arabic) and `lang` attributes.
- **Lightbox** (`work_samples.dfy`, module `Lightbox`): the work-samples
  gallery's open flag and current index, cyclic next/previous navigation and
  the keyboard handler.

`js_string.dfy` (module `JsString`) models the JavaScript built-ins these rely
on: the whitespace class shared by `String.prototype.trim` and the regular
expression escape `\s`, `trim` itself, and `split` on a one-character
separator. `option.dfy` holds the `Option` type used for JavaScript's
`undefined`.

The contact endpoint and the validator are pure functions over datatypes. The
translation service and the gallery component are classes whose methods
update their fields in place, as the components do; the browser state they
touch (`localStorage`, the document element's attributes, the body's
`overflow` style) is held in fields of their own, and the outcome of the HTTP
request for a language pack is an input (`Some(pack)` or `None`). The
request body's fields are modelled with JavaScript truthiness and with the
`TypeError` that `.trim()` raises on a value that is not a string.

The validator's messages are the code's exact strings, and the last run of
the e-mail pattern excludes `@` as well as whitespace, as
`^[^\s@]+@[^\s@]+\.[^\s@]+$` does.

## Model

| member | source | states |
|---|---|---|
| `ContactApi.EscapeHtml` | api/contact.ts:23-32 | the output contains none of `<`, `>`, `"`, `'`; text without any of the five special characters comes back unchanged; the output is never shorter than the input |
| `ContactApi.EscapeChar` | api/contact.ts:24-30 | a special character becomes an entity that starts with `&` and ends with `;`, every other character is kept as it is, and no replacement contains `<`, `>`, `"` or `'` |
| `ContactApi.UnescapeEscapeHtml` | api/contact.ts:23-31 | decoding the five entities in the escaped text gives back exactly the original text: `&`→`&amp;`, `<`→`&lt;`, `>`→`&gt;`, `"`→`&quot;`, `'`→`&#039;`, every other character copied in order |
| `ContactApi.UnescapeEscapeChar` | api/contact.ts:24-31 | the replacement of each single character decodes back to that character and nothing else |
| `ContactApi.EscapeHtmlInjective` | api/contact.ts:23-31 | two different texts never escape to the same HTML |
| `JsString.Trim` | api/contact.ts:49-55 | `trim` yields a contiguous slice of its input with no whitespace at either end, and everything it removed is whitespace |
| `JsString.TrimIdempotent` | api/contact.ts:49-55 | trimming a trimmed value changes nothing |
| `ContactApi.EmailTestIsPattern` | api/contact.ts:57-61 | the validator's e-mail test accepts exactly the strings matching `^[^\s@]+@[^\s@]+\.[^\s@]+$` (both directions) |
| `ContactApi.IsEmailAddress` | api/contact.ts:58-59 | an accepted address has at least five characters (the shortest is `a@b.c`); its full meaning is stated by `EmailTestIsPattern` |
| `ContactApi.EmailAddressShape` | api/contact.ts:58-59 | an accepted address contains no whitespace and exactly one `@`, which is neither its first nor its last character |
| `ContactApi.FieldTruthy` | api/contact.ts:39-44 | JavaScript truthiness of a body field: `undefined`, `null` and `''` are falsy, and every non-empty string is truthy |
| `ContactApi.TrimmedHoneypot` | api/contact.ts:54 | the trimmed honeypot, or `''` when there is none, has no whitespace at either end, and is empty whenever the honeypot let the request through |
| `ContactApi.Trimmed` | api/contact.ts:49-55 | every field of the trimmed payload has no whitespace at either end, and no required field grows |
| `ContactApi.ValidateFormData` | api/contact.ts:35-79 | every rejection carries one of the six fixed messages; an accepted payload is the submission with every field trimmed, reached only after the honeypot and presence checks |
| `ContactApi.CheckTrimmed` | api/contact.ts:57-78 | after trimming, every rejection carries a fixed message and acceptance returns the trimmed payload itself |
| `ContactApi.HoneypotRejects` | api/contact.ts:38-41 | a honeypot that is non-blank after trimming gives `'Invalid submission detected'` whatever the other fields hold |
| `ContactApi.RequiredErrorExactly` | api/contact.ts:43-46 | `'All fields are required'` is returned if and only if the honeypot lets the request through and one of the four fields is empty, missing or otherwise falsy |
| `ContactApi.BlankFieldsCaughtAfterTrimming` | api/contact.ts:44-61 | a whitespace-only e-mail passes the presence check and is rejected later, by the e-mail rule, after trimming |
| `ContactApi.FirstFailureIsFirst` | api/contact.ts:57-76 | the first-failure reading of an ordered rule list reports no failure exactly when every rule holds, and otherwise the message of a failing rule all of whose predecessors hold |
| `ContactApi.CheckTrimmedFollowsRuleOrder` | api/contact.ts:57-78 | the post-trim verdict equals the first failure of the fixed order e-mail, project details ≥ 10, company name ≥ 2, contact person ≥ 2, or acceptance when none fails |
| `ContactApi.ValidateReachesRules` | api/contact.ts:38-57 | once the honeypot and presence checks pass on string fields, the verdict is that of the post-trim rules on the trimmed payload |
| `ContactApi.ValidateFollowsRuleOrder` | api/contact.ts:35-79 | past the honeypot and presence checks, the validator reports the first failing rule of the fixed order, or accepts the trimmed payload |
| `ContactApi.ValidFormIsClean` | api/contact.ts:49-78 | an accepted payload has all four fields trimmed, an empty honeypot, a valid address and the three minimum lengths |
| `ContactApi.TrimmedResubmission` | api/contact.ts:49-55 | trimming a payload whose fields are already trimmed changes nothing |
| `ContactApi.ResubmissionPassesChecks` | api/contact.ts:38-46 | a payload with non-empty fields and an empty honeypot passes the honeypot and presence checks |
| `ContactApi.CleanFormRevalidates` | api/contact.ts:35-79 | a trimmed payload satisfying every rule is accepted unchanged |
| `ContactApi.RevalidateIsStable` | api/contact.ts:35-79 | validation is idempotent: re-validating the accepted payload accepts it again with identical data |
| `ContactApi.TypeErrorNeedsNonString` | api/contact.ts:36-55 | the validator throws only when some field holds a non-string value |
| `ContactApi.Guard` | api/contact.ts:89-113 | the request reaches the mail transport if and only if it is a POST, its serialised body is within 25 * 1024, the body validates and all five SMTP settings are present; it then carries the validated payload and the five settings read from the environment |
| `ContactApi.Handler` | api/contact.ts:81-292 | every answer has status 200, 400, 405, 413 or 500; 200 is returned exactly when the guards pass and the transport delivers, and a failed delivery after the guards pass gives 500 `'Failed to send email. Please try again later.'` |
| `ContactApi.NonPostRefused` | api/contact.ts:89-92 | any method but POST gives 405 `'Method not allowed'` before any other check |
| `ContactApi.OversizedBodyRefused` | api/contact.ts:94-98 | a POST whose serialised body is longer than 25 * 1024 gives 413 `'Request body too large'` before validation |
| `ContactApi.InvalidBodyRefused` | api/contact.ts:100-104 | an invalid body gives 400 carrying the validator's message verbatim |
| `ContactApi.MissingConfigIsGeneric` | api/contact.ts:108-113 | with a valid body and any SMTP setting missing the answer is 500 `'Server configuration error'`, the same whichever variable is missing |
| `JsString.Split` | src/app/services/translation.ts:41 | `split('.')` yields at least one part, no part contains the separator, and joining the parts with it gives back the key |
| `JsString.SplitJoin` | src/app/services/translation.ts:41 | splitting a join of separator-free parts gives the parts back |
| `JsString.IndexOfFirst` | src/app/services/translation.ts:41 | the split point is the first occurrence of the separator |
| `Translation.WalkPath` | src/app/services/translation.ts:44-50 | the walk gets past a segment only when the current value is an object |
| `Translation.Truthy` | src/app/services/translation.ts:45-52 | JavaScript truthiness of a looked-up value: `undefined` and `''` are falsy, every object and every non-empty string is truthy |
| `Translation.Lookup` | src/app/services/translation.ts:40-53 | `get` returns either the key itself or the truthy value the dotted path leads to, and whenever the path leads to a truthy value it returns exactly that value |
| `Translation.TranslationService.Get` | src/app/services/translation.ts:40-53 | the loop over the key's segments returns exactly the lookup of the key in the current pack, and changes no field |
| `Translation.WalkPathAppend` | src/app/services/translation.ts:44-50 | walking a path in two parts is walking the first part and then the second from where it ended |
| `Translation.LookupGivesUpEarly` | src/app/services/translation.ts:44-49 | when a proper prefix of the segments leads to a missing property or a string, `get` returns the key |
| `Translation.LookupFalsyFallsBack` | src/app/services/translation.ts:52 | when the full path ends on `undefined` or an empty string, `get` returns the key |
| `Translation.LookupEmptyPack` | src/app/services/translation.ts:10-52 | with the initial pack `{}` every key resolves to itself |
| `Translation.WalkPathPut` | src/app/services/translation.ts:44-50 | the path a text was stored under leads back to that text |
| `Translation.LookupPut` | src/app/services/translation.ts:40-53 | a non-empty text stored under a dotted key is what `get` returns for that key; an empty one falls back to the key |
| `Translation.DirectionFor` | src/app/services/translation.ts:27-34 | the direction is `rtl` if and only if the language is `ar`, and `ltr` otherwise |
| `Translation.InitialLanguage` | src/app/services/translation.ts:15-16 | the start-up language is the remembered one when there is a non-empty one, and `en` otherwise |
| `Translation.AvailableLanguages` | src/app/services/translation.ts:59-66 | exactly four entries with distinct codes `en`, `ar`, `de`, `tr`, in that order |
| `Translation.TranslationService.constructor` | src/app/services/translation.ts:10-18 | the service starts on `{}` and `en` and loads the remembered language, or `en` |
| `Translation.TranslationService.LoadLanguage` | src/app/services/translation.ts:20-38 | on arrival the pack replaces the old one wholesale, and the current language, the remembered `'language'` entry, `lang` and `dir` (`rtl` iff `ar`) follow; a failed request changes nothing |
| `Translation.TranslationService.SwitchLanguage` | src/app/services/translation.ts:55-57 | has exactly the effect of `loadLanguage` |
| `Lightbox.NextIndex` | src/app/components/work-samples/work-samples.ts:117-120 | for an in-range index, the next index is in range and equals `(i + 1) mod n` (the last wraps to the first) |
| `Lightbox.PreviousIndex` | src/app/components/work-samples/work-samples.ts:106-109 | for an in-range index, the previous index is in range and equals `(i - 1) mod n` (the first wraps to the last) |
| `Lightbox.NextPreviousInverse` | src/app/components/work-samples/work-samples.ts:102-121 | next then previous, and previous then next, restore an in-range index |
| `Lightbox.NextIndexTimesAdd` | src/app/components/work-samples/work-samples.ts:113-121 | `a + b` steps forward are `a` steps followed by `b` steps |
| `Lightbox.NextIndexTimesAdvances` | src/app/components/work-samples/work-samples.ts:113-121 | short of the last image, `k` steps forward add `k` to the index |
| `Lightbox.FullCycleReturns` | src/app/components/work-samples/work-samples.ts:113-121 | `n` consecutive steps forward return to the starting index |
| `Lightbox.WorkSamples.constructor` | src/app/components/work-samples/work-samples.ts:21-80 | the lightbox starts closed on index 0 with the given images |
| `Lightbox.WorkSamples.OpenLightbox` | src/app/components/work-samples/work-samples.ts:87-92 | sets the index to the argument, opens the lightbox and locks page scrolling |
| `Lightbox.WorkSamples.CloseLightbox` | src/app/components/work-samples/work-samples.ts:95-99 | closes the lightbox and restores scrolling, leaving the index unchanged |
| `Lightbox.WorkSamples.PreviousImage` | src/app/components/work-samples/work-samples.ts:102-110 | moves the index back cyclically, keeps it in range, and changes neither the open flag nor the images |
| `Lightbox.WorkSamples.NextImage` | src/app/components/work-samples/work-samples.ts:113-121 | moves the index forward cyclically, keeps it in range, and changes neither the open flag nor the images |
| `Lightbox.WorkSamples.HandleKeyboardEvent` | src/app/components/work-samples/work-samples.ts:124-139 | changes nothing while closed; when open, Escape closes, ArrowLeft goes back, ArrowRight goes forward, and any other key changes nothing |

## Left out

- The mail transport: creating the nodemailer transport, `verify`, and the two `sendMail` calls with their subjects, plain-text and HTML bodies are external network I/O. Their joint success is the single input `delivered` of `Handler`; a failure of either send, after the first may already have gone out, is the generic 500 `'Failed to send email. Please try again later.'`.
- The HTML e-mail templates are not modelled as text, so the model does not show that user fields enter the HTML bodies only through `escapeHtml`.
- The response headers `Cache-Control: no-store` and `Content-Type: application/json`, which the handler sets unconditionally before any guard.
- `console.error` logging in the handler and in `loadLanguage`, and `new Date().getFullYear()` in the auto-reply footer.
- `JSON.stringify(req.body)`: serialisation is not modelled; the length of the serialised body is an input of the request. Bodies that are not objects (a missing body, `null`) are not modelled either.
- Lengths: JavaScript's `length` counts UTF-16 code units, the model counts characters, so the two differ for characters outside the Basic Multilingual Plane.
- Non-string JSON values in the request body are reduced to their truthiness; their exact type does not matter to the validator except that `.trim()` on them throws.
- An uncaught exception from the validator (the `Crash` outcome) is answered by the hosting platform, which is not part of this model.
- `loadLanguage`'s HTTP request is an input; several loads in flight whose responses arrive out of order are not modelled (each load is applied atomically when its response is given).
- Language packs hold only strings and objects; JSON arrays, numbers, booleans and `null` inside a pack, and property names inherited from JavaScript's object prototype (`constructor`, `__proto__`), are not modelled.
- The `Language` union type is not enforced at run time (the remembered value is cast unchecked), so languages are plain strings in the model.
- `WorkSamples`: `stopPropagation` on the click event, the `t` delegation to the translation service, the `@HostListener` registration, the default eight-image list, and a parent replacing the `images` input after construction.
- The other components (contact form, navigation, hero, call-to-action, footer, services, capabilities, why-Egypt, inside-Kemet, the app shell) and the translate pipe are view glue or one-line delegations to `get`.
