# Adoption intake form: a verified Dafny model

This project models the intake form (`CadastroScreen`) of a small React
Native pet-adoption app. The form is the only part of the app with real
logic. It has three parts:

- **Input masks.** `onlyDigits` strips non-digits. `formatCelular` renders
  at most 11 digits as the Brazilian mobile mask `(DD) XXXXX-YYYY`.
  `formatDate` renders at most 8 digits as `DD/MM/YYYY`. Partial input gets
  a partial mask.
- **Validity flags.** `emailValido` is the unanchored regex test
  `/\S+@\S+\.\S+/`. `senhaConfere` needs a non-empty password equal to its
  confirmation. `formValido` is the conjunction that enables the
  "Quero Adotar!" button.
- **Form state and submit.** The screen holds ten `useState` strings and
  the shared `pets` catalog. `handleSubmit` appends a new record whose id is
  `String(pets.length + 1)` and then clears all ten fields.

Modules, one per part of the screen:

- `masks.dfy` (`Mascaras`): pure functions `OnlyDigits`, `FormatCelular`,
  `FormatDate` and the lemmas about them.
- `validation.dfy` (`Validacao`): whitespace, `EmailValido` and the regex
  semantics it is proved equal to, `SenhaConfere`, the `Fields` value and
  `FormValido`.
- `catalog.dfy` (`Catalogo`): the `Pet` record, `String(n)` as
  `NatToString` with its inverse `DecimalValue`, the record `NovoPet`, the
  initial catalog and the "ids are 1..n" invariant.
- `intake_form.dfy` (`Cadastro`): the selector buttons, the class
  `PetCatalog` (the app's `pets` state), and the class `CadastroForm`. Its
  ten mutable fields are the screen's state variables. Its methods are the
  `onChangeText` handlers, the button presses and `HandleSubmit`.
  `HandleSubmit` requires `Submittable()`, because the button is disabled
  otherwise.

Notes on the code as written:

- The selector values are the Portuguese strings the buttons pass:
  `"cachorro"`/`"gato"`, `"macho"`/`"femea"`, `"filhote"`/`"adulto"`/`"idoso"`,
  `"pequeno"`/`"medio"`/`"grande"`.
- Ids are `String(pets.length + 1)`; there is no separate counter.
- `handleSubmit` performs no validity check of its own. The only guard is
  the disabled button, so the model states it as a precondition. It does
  not model an error result.
- The catalog starts with the three pets of App.js:440-442.

One behaviour of the phone mask as written: with exactly 7 digits the
display is `(DD) XXXXX-`, ending in the dash. Deleting that dash leaves the
same 7 digits, so the dash comes back (`FormatCelularDashReappears`). The
model keeps this behaviour, as the code has it.

## Model

| member | source | states |
|---|---|---|
| `Mascaras.OnlyDigits` | App.js:114 | every character of the result is a digit, and the result is no longer than the input |
| `Mascaras.OnlyDigitsConcat` | App.js:114 | digit stripping distributes over concatenation, so it works character by character, left to right |
| `Mascaras.OnlyDigitsChar` | App.js:114 | a single character is kept iff it is in `0`–`9` |
| `Mascaras.OnlyDigitsCounts` | App.js:114 | each digit occurs in the output exactly as often as in the input; no non-digit occurs |
| `Mascaras.OnlyDigitsOfDigits` | App.js:114 | a string of digits is returned unchanged |
| `Mascaras.OnlyDigitsEmptyIff` | App.js:114 | the output is empty iff the input has no digit |
| `Mascaras.OnlyDigitsIdempotent` | App.js:114 | stripping twice equals stripping once |
| `Mascaras.Take` | App.js:116 | `slice(0, n)` is a prefix of length min(n, length) |
| `Mascaras.MaskCelular` | App.js:117-120 | the four cases add nothing to up to 2 digits, 3 characters `(`, `) ` to 3..6 digits and 4 (with the `-`) to 7..11 digits; `FormatCelularComplete` pins down where they go, and `MaskCelularPrefix` carries that to partial masks |
| `Mascaras.FormatCelular` | App.js:115-121 | the phone mask is at most 15 characters long |
| `Mascaras.MaskCelularDigits` | App.js:117-120 | the phone mask inserts no digit: its digits are exactly the given ones, in order |
| `Mascaras.MaskCelularSeparators` | App.js:117-120 | every non-digit the phone mask writes is `(`, `)`, a space or `-` |
| `Mascaras.FormatCelularDigits` | App.js:115-121 | the digits of the masked phone are exactly the first min(11, n) input digits |
| `Mascaras.FormatCelularLength` | App.js:115-121 | the mask has length d, d+3 or d+4 for d ≤ 2, 3..6 or 7..11 digits; it has length 15 iff the input had at least 11 digits |
| `Mascaras.FormatCelularIdempotent` | App.js:115-121 | re-masking a masked phone changes nothing |
| `Mascaras.FormatCelularComplete` | App.js:120 | a 15-character mask has the shape `(DD) XXXXX-YYYY` with digits in the digit slots |
| `Mascaras.MaskCelularPrefix` | App.js:117-120 | once there are at least 3 digits, the partial mask is a prefix of the mask of any longer digit string, so typing more digits only extends the display; with `FormatCelularComplete` every partial mask is a prefix of `(DD) XXXXX-YYYY` |
| `Mascaras.FormatCelularExtends` | App.js:115-121 | when the digits typed now extend the digits typed before (3 or more), the new display extends the old one |
| `Mascaras.FormatCelularDashReappears` | App.js:119 | with exactly 7 digits the display ends in `-` with nothing after it, and re-formatting the display without that dash puts it back |
| `Mascaras.FormatCelularDashExample` | App.js:119 | `"(11) 98765"` is shown as `"(11) 98765-"` |
| `Mascaras.FormatCelularOfDigits` | App.js:115-121 | on at most 11 digits the formatter is the bare mask |
| `Mascaras.FormatCelularCompleteExample` | App.js:115-121 | `"11987654321"` becomes `"(11) 98765-4321"` |
| `Mascaras.FormatCelularPartialExamples` | App.js:115-121 | `"abc119"` becomes `"(11) 9"` and `""` stays `""` |
| `Mascaras.MaskDate` | App.js:124-126 | the three cases add nothing to up to 2 digits, one `/` to 3..4 digits and two to 5..8 digits; `FormatDateComplete` pins down where they go, and `MaskDatePrefix` carries that to partial masks |
| `Mascaras.FormatDate` | App.js:122-127 | the date mask is at most 10 characters long |
| `Mascaras.MaskDateDigits` | App.js:124-126 | the date mask inserts no digit: its digits are exactly the given ones, in order |
| `Mascaras.MaskDateSeparators` | App.js:124-126 | every non-digit the date mask writes is `/` |
| `Mascaras.FormatDateDigits` | App.js:122-127 | the digits of the masked date are exactly the first min(8, n) input digits |
| `Mascaras.FormatDateLength` | App.js:122-127 | the mask has length d, d+1 or d+2 for d ≤ 2, 3..4 or 5..8 digits; it has length 10 iff the input had at least 8 digits |
| `Mascaras.FormatDateIdempotent` | App.js:122-127 | re-masking a masked date changes nothing |
| `Mascaras.FormatDateComplete` | App.js:126 | a 10-character mask has the shape `DD/MM/YYYY` with digits in the digit slots; there is no calendar check |
| `Mascaras.MaskDatePrefix` | App.js:124-126 | every partial date mask is a prefix of the mask of any longer digit string, so typing more digits only extends the display |
| `Mascaras.FormatDateExtends` | App.js:122-127 | when the digits typed now extend the digits typed before, the new display extends the old one |
| `Mascaras.FormatDateExamples` | App.js:122-127 | `"01022023"` becomes `"01/02/2023"`, `"0102"` becomes `"01/02"`, `""` stays `""` |
| `Validacao.IsWhitespace` | App.js:130 | a `\s` character is never `@`, `.` or a digit, and space, tab and newline are `\s` |
| `Validacao.EmailValido` | App.js:130 | a passing address has at least five characters; `EmailValidoIffRegex` pins the test to the regex semantics in both directions |
| `Validacao.EmailValidoIffRegex` | App.js:130 | the computable e-mail check holds iff some substring matches `\S+@\S+\.\S+` (both directions) |
| `Validacao.EmailValidoInContext` | App.js:130 | the test is unanchored: any text around a valid address keeps it valid |
| `Validacao.EmailValidoNeeds` | App.js:130 | a valid address has at least five characters and contains `@` |
| `Validacao.EmailValidoExamples` | App.js:130 | `"a@b.c"` is valid; `"a@b"`, `""` and `"a @b.c"` are not |
| `Validacao.SenhaConfere` | App.js:131 | an empty password never matches; a match has a non-empty confirmation of the same length; `SenhaConfereCases` gives both directions |
| `Validacao.SenhaConfereCases` | App.js:131 | an empty password never matches, even an empty confirmation; otherwise the check is equality, which is symmetric |
| `Validacao.FormValido` | App.js:132-141 | an enabled button implies a form that is not all empty, an e-mail of at least five characters and a non-empty confirmation; `FormValidoEachCheck` gives each failing check |
| `Validacao.FormValidoEachCheck` | App.js:132-141 | any single failing check (name, e-mail, phone length 15, date length 10, password, any selector) disables submit |
| `Validacao.VazioNotValido` | App.js:132-141 | the all-empty form is not submittable |
| `Validacao.FormValidoNeedsFullMasks` | App.js:132-141 | when the phone and date went through their masks, submit is enabled only after at least 11 phone digits and 8 date digits were typed |
| `Validacao.FormValidoExample` | App.js:132-141 | a fully filled-in form is submittable |
| `Catalogo.DigitChar` | App.js:161 | the character for a value below 10 is a digit |
| `Catalogo.NatToString` | App.js:161 | `String(n)` is a non-empty string of digits with no leading zero unless n is 0 |
| `Catalogo.DecimalValueOfNatToString` | App.js:161 | reading `String(n)` back as a decimal numeral gives n |
| `Catalogo.NatToStringInjective` | App.js:161 | distinct lengths give distinct ids |
| `Catalogo.NovoPet` | App.js:160-168 | the new id is a non-empty digit string without a leading zero, the photo is one of the two constants, and the story has 28 characters beyond the name and the size |
| `Catalogo.NovoPetContents` | App.js:160-168 | the new record's id denotes length + 1; name, age and sex are copied; the story is "Pet cadastrado por ⟨nome⟩, porte ⟨porte⟩."; the kitten photo is chosen iff the species is `"gato"` |
| `Catalogo.NovoPetExample` | App.js:159-171 | the record built for Ana's cat request when the catalog is empty is `Pet("1", "Ana", "adulto", "femea", "Pet cadastrado por Ana, porte pequeno.", FotoGato)` |
| `Catalogo.AppendNovoPetKeepsIds` | App.js:161-171 | if the ids were "1".."n", appending the new record makes them "1".."n+1" |
| `Catalogo.IdsSequentialUnique` | App.js:161 | sequentially numbered records never share an id |
| `Catalogo.InitialPets` | App.js:440-442 | the initial catalog has three records; `InitialPetsIdsSequential` shows they are numbered "1".."3" |
| `Catalogo.InitialPetsIdsSequential` | App.js:439-443 | the initial catalog is numbered "1".."3" |
| `Cadastro.Especie.Value` | App.js:270-283 | a species button sets `"cachorro"` or `"gato"` |
| `Cadastro.Sexo.Value` | App.js:288-301 | a sex button sets `"macho"` or `"femea"` |
| `Cadastro.Idade.Value` | App.js:306-326 | an age button sets `"filhote"`, `"adulto"` or `"idoso"` |
| `Cadastro.Porte.Value` | App.js:331-351 | a size button sets `"pequeno"`, `"medio"` or `"grande"` |
| `Cadastro.SelectorValuesDistinct` | App.js:270-351 | within each selector, distinct buttons set distinct values |
| `Cadastro.VazioOk` | App.js:101-111 | the initial, all-empty state satisfies the form invariant |
| `Cadastro.MaskedInputOk` | App.js:222-234 | storing a masked phone (line 222) or a masked date (line 234) keeps every masked field a fixed point of its mask |
| `Cadastro.SubmittableState` | App.js:132-141 | in a reachable state with submit enabled, each selector holds one of its buttons' values, the phone has 11 digits and the date 8 |
| `Cadastro.SubmittedFoto` | App.js:166-168 | a record submitted from a reachable state gets the kitten photo for `"gato"` and the puppy photo for `"cachorro"` |
| `Cadastro.PetCatalog.constructor` | App.js:439-443 | the catalog starts as the three initial pets, with sequential ids |
| `Cadastro.PetCatalog.Append` | App.js:171 | `setPets([...pets, novoPet])`: the catalog becomes the old one followed by the new record |
| `Cadastro.CadastroForm.constructor` | App.js:101-111 | all ten fields start empty, the invariant holds and submit is disabled |
| `Cadastro.CadastroForm.Submittable` | App.js:132-141 | `formValido` as the `disabled` prop at line 356 reads it: the button is enabled only with a name, a 15-character phone, a 10-character date and a non-empty password equal to its confirmation, so never on the empty form |
| `Cadastro.CadastroForm.SetNome` | App.js:198 | only `nome` changes, and it becomes the typed text |
| `Cadastro.CadastroForm.SetEmail` | App.js:209 | only `email` changes, and it becomes the typed text |
| `Cadastro.CadastroForm.OnChangeCelular` | App.js:222 | only `celular` changes, and it becomes the masked text; the invariant is kept |
| `Cadastro.CadastroForm.OnChangeDataNasc` | App.js:234 | only `dataNasc` changes, and it becomes the masked text; the invariant is kept |
| `Cadastro.CadastroForm.SetSenha` | App.js:246 | only `senha` changes, and it becomes the typed text |
| `Cadastro.CadastroForm.SetConfSenha` | App.js:258 | only `confSenha` changes, and it becomes the typed text |
| `Cadastro.CadastroForm.PressEspecie` | App.js:268-283 | only `especie` changes, and it becomes the pressed button's value |
| `Cadastro.CadastroForm.PressSexo` | App.js:286-301 | only `sexo` changes, and it becomes the pressed button's value |
| `Cadastro.CadastroForm.PressIdade` | App.js:304-326 | only `idade` changes, and it becomes the pressed button's value |
| `Cadastro.CadastroForm.PressPorte` | App.js:329-351 | only `porte` changes, and it becomes the pressed button's value |
| `Cadastro.CadastroForm.HandleSubmit` | App.js:159-178 | callable only while submit is enabled; the catalog gains exactly the new record at its end and earlier records stay as they were; all ten fields become `""`, so submit is disabled; sequential ids stay sequential |
| `Cadastro.CadastroForm.Clear` | App.js:176-177 | the ten `set...("")` calls leave every field `""` |

## Left out

- Rendering, styles, icons, the list, detail and about screens, and the
  navigators. They are presentation only and contain no logic of the form.
- `Alert.alert` after a submit. It is a user-interface side effect with no
  effect on state.
- The highlighting of the selected button (`selected === value`). It is
  presentation only.
- The default parameter `text = ""` of the formatters. Every call in the
  screen passes a string.
- React's batching of state updates and re-rendering. Each handler is
  modelled as an immediate assignment. `formValido` is recomputed from the
  current fields on every read, as on every render.
- `formValido` is a JavaScript `&&` chain that yields a string or boolean
  and is used for its truthiness. The model uses a boolean, with `""` as
  the only falsy string.
- Strings are sequences of Unicode scalar values, while JavaScript strings
  are UTF-16 code units. Only digits reach `slice` in the masks, and a
  surrogate half is `\S` exactly as the whole character is. So the results
  agree for the operations modelled.
- Whitespace (`\s`) is the fixed JavaScript set of space characters written
  out in `IsWhitespace`. No Unicode database is consulted.
- Concurrent submissions. The app has one logical actor, and ids come from
  `pets.length + 1`, as the code does. The model does not add
  collision-free id generation.
- The image URLs are two constant strings. Nothing is fetched or checked.
