# x-editable timer input, modelled in Dafny

The timer input of x-editable (`dist/inputs-ext/timer/timer.js`) is a composite
hour/minute/second editor. It plugs into x-editable's in-place editing framework. The framework
asks it to convert a value among four forms:

- display markup (`value2html`), which zero-pads each field, HTML-escapes it and joins the fields with `:`;
- the comparison string (`value2str`), built as `key:value;` segments over the value's keys;
- the three input slots named `hour`, `min` and `sec` (`value2input` / `input2value`);
- the two converters back from markup and from strings (`html2value`, `str2value`).

The project has four modules:

- `Wrappers` (wrappers.dfy): `Option`. `None` stands for a falsy JavaScript value.
- `Decimal` (decimal.dfy): `Show` is the decimal text JavaScript gives a natural number of at
  most 2^53 when it concatenates it with a string or writes it as text. `Value` reads that text back.
- `HtmlEscape` (html_escape.dfy): the text escaping done by jQuery's `.text(t).html()`.
  It is the "escaping a string" step of section 13.3 of the WHATWG HTML Living Standard:
  `&`, `<`, `>` and U+00A0 become character references. `Unescape` is its inverse.
- `Timer` (timer.dfy): the value record `TimerValue<T>` and the pure conversions with their
  lemmas. It also holds two classes. `Element` is the target of `value2html`. `TimerInput`
  is the widget, with its three input slots as string fields.

The display is computed from natural-number fields. The input slots hold strings. `value2str`
is modelled over a `Record`: an object's enumerable keys in enumeration order, each paired
with its value's string form.

The doc comment at timer.js:3 says the value is `{min, sec}`. The code reads and writes
`hour`, `min` and `sec` (lines 55-57, 111-113, 122-126), and the model follows the code.

`value2str` (lines 78-86) concatenates the raw field values without the padding `value2html`
applies, so `CompareStringShape` has no padding.

## Model

| member | source | states |
|---|---|---|
| `Decimal.Show` | dist/inputs-ext/timer/timer.js:55-57 | The text of a number is at least one character, all digits, with no leading zero. It is a single digit exactly when the number is below 10. |
| `Decimal.ValueOfShow` | dist/inputs-ext/timer/timer.js:55-57 | The decimal text JavaScript writes for a natural field reads back as that same number. |
| `Decimal.ShowInjective` | dist/inputs-ext/timer/timer.js:82 | Two numbers have the same decimal text exactly when they are equal. |
| `Timer.Pad` | dist/inputs-ext/timer/timer.js:55-57 | The padded field is all digits and reads back as the field. It is two characters when the field is below 10 and as wide as the plain number otherwise. It starts with '0' exactly when the field is below 10. |
| `HtmlEscape.Escape` | dist/inputs-ext/timer/timer.js:59 | Escaped text contains no raw `<`, `>` or U+00A0. Text without special characters is unchanged. No `:` is introduced. |
| `HtmlEscape.UnescapeEscape` | dist/inputs-ext/timer/timer.js:59 | Decoding the escaped text gives the original text back, so escaping loses nothing. |
| `HtmlEscape.EscapeEntities` | dist/inputs-ext/timer/timer.js:59 | Every `&` in escaped text begins one of `&amp;`, `&lt;`, `&gt;`, `&nbsp;`. |
| `Timer.Render` | dist/inputs-ext/timer/timer.js:59 | The three separately escaped parts, joined by `:`, contain no raw `<`, `>` or U+00A0. This holds for any part strings. |
| `Timer.RenderEntities` | dist/inputs-ext/timer/timer.js:59 | Every `&` in the joined markup begins a character reference. |
| `Timer.RenderRoundTrip` | dist/inputs-ext/timer/timer.js:59 | The first two parts must contain no `:`. Then splitting the markup at its first two `:` and decoding each piece gives exactly hour, min and sec back, in that order. |
| `Timer.Display` | dist/inputs-ext/timer/timer.js:55-59 | The markup `value2html` computes contains no raw `<`, `>` or U+00A0. Every `&` in it begins a character reference. It is at least 8 characters long. |
| `Timer.DisplayShape` | dist/inputs-ext/timer/timer.js:55-60 | When every field is below 100, the markup has 8 characters with `:` at positions 2 and 5. The padded hour, min and sec appear unescaped between them. |
| `Timer.DisplayExample` | dist/inputs-ext/timer/timer.js:55-59 | Hour 5, min 3, sec 59 is displayed as `05:03:59`. |
| `Timer.DisplayInjective` | dist/inputs-ext/timer/timer.js:55-59 | Two values give the same markup exactly when they are equal. |
| `Timer.TimerInput.ValueToHtml` | dist/inputs-ext/timer/timer.js:49-61 | A falsy value leaves the element empty. Otherwise the element holds the padded, escaped, colon-joined fields. Only the element is modified. |
| `Timer.TimerInput.HtmlToValue` | dist/inputs-ext/timer/timer.js:68-70 | Every markup string gives `null`. |
| `Timer.Serialize` | dist/inputs-ext/timer/timer.js:79-85 | The comparison string is empty exactly when the record has no keys. A non-empty one ends in `;`. |
| `Timer.SerializeSnoc` | dist/inputs-ext/timer/timer.js:81-83 | Appending a key appends exactly its `key:value;` segment, which is one step of the loop. |
| `Timer.ParseSerialize` | dist/inputs-ext/timer/timer.js:79-85 | Keys must hold no `:` or `;`, and values no `;`. Then reading the segments back gives the record's keys and values in order. |
| `Timer.TimerInput.ValueToStr` | dist/inputs-ext/timer/timer.js:78-86 | A falsy value gives `""`. Otherwise the loop's result is the concatenation of `key:value;` over the keys in enumeration order. |
| `Timer.Entries` | dist/inputs-ext/timer/timer.js:122-126 | A timer value enumerates exactly three keys, `hour`, `min` and `sec`, in that order. When no field holds `;`, the record meets the separator condition of `ParseSerialize`. |
| `Timer.CompareStringShape` | dist/inputs-ext/timer/timer.js:79-85 | For a timer value the comparison string is `hour:<hour>;min:<min>;sec:<sec>;`, with the fields unpadded. |
| `Timer.CompareStringExample` | dist/inputs-ext/timer/timer.js:79-85 | `{hour:1, min:2, sec:3}` gives `hour:1;min:2;sec:3;`. |
| `Timer.CompareStringDistinguishes` | dist/inputs-ext/timer/timer.js:72-85 | String fields must contain no `;`. Then two timer values have equal comparison strings exactly when they are equal. |
| `Timer.CompareStringDistinguishesNumbers` | dist/inputs-ext/timer/timer.js:72-85 | Two numeric timer values have equal comparison strings exactly when they are equal. |
| `Timer.TimerInput.StrToValue` | dist/inputs-ext/timer/timer.js:93-99 | Every string is returned unchanged, which is the identity law. |
| `Timer.TimerInput.ValueToInput` | dist/inputs-ext/timer/timer.js:107-114 | A falsy value leaves all three slots unchanged. Otherwise the slots get hour, min and sec verbatim, and reading the inputs back gives exactly that value. |
| `Timer.TimerInput.InputToValue` | dist/inputs-ext/timer/timer.js:121-127 | Builds a new value whose hour, min and sec are the current contents of the three slots. It only reads the widget. |

## Left out

- `render` (timer.js:40-42) is not modelled. It finds the inputs with a jQuery selector. The three slots are fields of `TimerInput` instead, and the constructor starts them empty.
- `activate` (timer.js:134-136) is not modelled. It moves keyboard focus, a UI side effect with nothing to state.
- `autosubmit` (timer.js:143-149) is not modelled. It binds a keydown handler that submits the form, which is event handling and I/O.
- The base-class mix-in and the global registration (timer.js:27-32, 166) are not modelled. They belong to the host framework.
- The `Timer.defaults` template (timer.js:152-164) is not modelled beyond its three input names. Its `min`/`max` attributes are browser hints the code never enforces.
- `Timer.TimerInput.ValueToInput`: the browser's value sanitisation for `<input type="number">` is not modelled. That sanitisation would turn a non-numeric string into `""`. The slots are plain strings, written and read verbatim.
- `Timer.TimerInput.ValueToHtml`: fields that are strings rather than numbers are not modelled. For those, JavaScript compares them with `< 10` and concatenates them as strings. `Timer.Render` still states the escaping guarantees for arbitrary part strings.
- `Decimal.Show`: matches JavaScript only for naturals up to 2^53. A JavaScript Number is an IEEE 754 double, and its text is the shortest digit string that reads back to the same double. Above 2^53 that text differs from the exact digits: 2^64 prints as `18446744073709552000`. Exponent notation (from 10^21) and non-integer numbers are not modelled either.
- `Timer.TimerInput.ValueToHtml`: the browser parses the markup when it is assigned and may re-serialise it. The model stores the markup string as written.
