# Demonstration web server: a verified model of its logic

The repository is a small Express server (`app.js`). It serves a static
entry page, answers two JSON endpoints, `/api/health` and `/api/users`, from
constant data, and exports two helpers that its unit tests call: `soma`
(addition) and `validarEmail` (a syntactic e-mail check by the anchored
regular expression `^[^\s@]+@[^\s@]+\.[^\s@]+$`). This project models those
three parts in Dafny and proves what they promise.

- `email.dfy`, module `EmailValidation`: `validarEmail`.
  - `IsJsWhitespace` is the JavaScript `\s` class: space, U+0009 to U+000D,
    U+00A0, U+1680, U+2000 to U+200A, U+2028, U+2029, U+202F, U+205F, U+3000
    and U+FEFF.
  - `InClass` is `[^\s@]`.
  - `MatchesAt` and `RegexMatch` state what the regular expression means: the
    string splits into three non-empty runs of `[^\s@]`, joined by an `@` and
    a literal dot.
  - `ValidarEmail` is an executable checker: a seven-state automaton (`Step`,
    `Scan`) whose states are positions in the pattern. The proof that it
    accepts exactly what the regular expression matches goes through
    "residual" languages. `Accepts(q, t)` is what the pattern still needs in
    state `q`. `StepAccepts` shows that one step consumes one character of it.
    `ScanAccepts` is the induction over the string.
  - Closed forms: the accepted strings are exactly `l + "@" + d + "." + t`
    with `l`, `d`, `t` non-empty runs of `[^\s@]`. Equivalently, they are
    `l + "@" + r` with `l` non-empty, and `r` holding a dot that is neither
    its first nor its last character. Dots may repeat, because `.` is itself
    in `[^\s@]`.
  - This is the syntactic check of the source, not RFC 5322 address syntax.
- `email_examples.dfy`, module `EmailExamples`: the strings the unit tests
  check, plus edge cases, evaluated on the checker.
- `soma.dfy`, module `Arithmetic`: `soma` over unbounded integers.
- `routes.dfy`, module `Routes`: the route table as a pure function
  `Dispatch(method, path, now)` to a status and a body.
  - `now` is the clock reading that the health handler formats, passed in as a
    string.
  - The body is the entry page, the health report, the user list, the
    framework's automatic `OPTIONS` answer (`GET,HEAD`: the path is bound
    only for `GET`, and Express adds `HEAD` itself), or the framework's 404 fall-through.

## Model

| member | source | states |
|---|---|---|
| EmailValidation.ValidarEmail | app.js:39-42 | the executable checker; no ensures of its own, its meaning is stated by `ValidarEmailMatchesRegex` and the three closed forms below |
| EmailValidation.ValidarEmailMatchesRegex | app.js:39-42 | the checker accepts a string if and only if the anchored pattern `[^\s@]+@[^\s@]+\.[^\s@]+` matches it under some split |
| EmailValidation.ScanAccepts | app.js:40 | scanning the rest of the string from any automaton state ends in the accepting state if and only if the rest is in that state's residual language of the pattern |
| EmailValidation.StepAccepts | app.js:40 | each automaton transition on a character is exactly the residual of that state's language by the character |
| EmailValidation.ValidarEmailThreeParts | app.js:40-41 | accepted if and only if the string is `l + "@" + d + "." + t` with `l`, `d`, `t` non-empty and free of whitespace and `@` |
| EmailValidation.ValidarEmailAtSplit | app.js:40-41 | accepted if and only if the string is `l + "@" + r` with `l` non-empty, `l` and `r` free of whitespace and `@`, and `r` holding a dot that is neither its first nor its last character |
| EmailValidation.DomainPartIsInnerDot | app.js:40 | the part of the pattern after the `@`, `[^\s@]+\.[^\s@]+`, matches exactly the runs of `[^\s@]` with a dot away from both ends |
| EmailValidation.AcceptedShape | app.js:40 | a string is accepted if and only if it has no whitespace and exactly one `@`, which is neither first nor last, and a dot after it that is neither right after the `@` nor last |
| EmailExamples.UnitTestsAccepted | tests/app.test.js:16-17 | `teste@exemplo.com` and `usuario@dominio.pt` are accepted |
| EmailExamples.UnitTestsRejected | tests/app.test.js:18-20 | `email-invalido`, `sem@dominio` and the empty string are rejected |
| EmailExamples.RepeatedDotsAccepted | app.js:40 | `a@b.c.d`, `a@b..c`, `a@..c` and `.@b.c` are accepted, because a dot is in `[^\s@]` |
| EmailExamples.MisplacedPartsRejected | app.js:40 | `a@.c`, `a@b.`, `a@@b.c`, `a b@c.d`, `@b.c` and a string ending in a line feed are rejected |
| Arithmetic.Soma | app.js:34-36 | `soma` over unbounded integers; no ensures of its own, its laws are stated by `SomaLaws` and its test vectors by `SomaTestVectors` |
| Arithmetic.SomaLaws | app.js:34-36 | `soma` is integer addition: commutative, associative, 0 is its identity, adding `-b` undoes adding `b` |
| Arithmetic.SomaTestVectors | tests/app.test.js:10-12 | `soma(2, 3) = 5`, `soma(-1, 1) = 0`, `soma(0, 0) = 0` |
| Routes.Dispatch | app.js:11-31 | every response is 200 or 404, a 404 carries exactly the fall-through body, a health report carries the clock reading it was given, and the `OPTIONS` answer comes exactly for `OPTIONS` of a bound path |
| Routes.UserList | app.js:25-29 | the literal user list; a constant, whose properties are stated by `UsersListing` and `UserEmailsValid` |
| Routes.RootServesPage | app.js:11-13 | `GET /` answers 200 with the entry page |
| Routes.HealthReport | app.js:16-22 | `GET /api/health` answers 200 with status `"OK"`, version `"1.0.0"` and the clock reading as timestamp, whatever the clock reads |
| Routes.UsersListing | app.js:24-31 | `GET /api/users` answers 200 with exactly three users, ids 1, 2, 3 in that order, ids pairwise distinct, every name and email non-empty |
| Routes.UserEmailsValid | app.js:26-28 | every email in the user list passes `validarEmail` |
| Routes.NotFoundIffUnrouted | app.js:11-31 | a request answers 404 if and only if it is not `GET` or `OPTIONS` of `/`, `/api/health` or `/api/users`, and 200 if and only if it is |
| Routes.OptionsListsGetAndHead | app.js:11-31 | `OPTIONS` of a bound path answers 200 listing `GET,HEAD`, since every route is bound only for `GET` |
| Routes.UnknownRouteNotFound | tests/app.test.js:55-58 | `GET /api/rota-inexistente` answers 404 |
| Routes.ClockOnlyInTimestamp | app.js:16-22 | two requests that differ only in the clock reading get the same response except for the health report's timestamp, and a request other than `GET /api/health` gets the identical response |

## Left out

- Express plumbing (app.js:1-8, 12, 44-54) is not modelled. This covers the static-file and JSON-body middleware, `res.sendFile`, JSON serialisation, `app.listen`, the `PORT` variable and the `require.main` test. They are framework I/O whose behaviour is not in the repository. So `Dispatch`'s "every response is 200 or 404" holds of the model only: `express.json()` answers 400 to a malformed JSON body (even on `GET /api/health`), 413 to an oversized body and 415 to an unsupported charset, before any route runs.
- Express's path matching is not modelled. It ignores letter case and a trailing `/`, strips the query string, and lets `express.static('public')` serve other files under `public/`. `Dispatch` takes the path as already matched exactly against the route strings.
- HEAD requests are not modelled. Express answers them with the `GET` handlers and no body, so `Method` has no `Head`. `HEAD` still appears in the `OPTIONS` answer, as Express lists it.
- The `Allow` header of the `OPTIONS` answer is not modelled as a header. Express sends the same list as the header and as the body, and `Allowed` carries it once.
- The 404 body is not modelled. The framework writes its own error page there, and nothing inspects it.
- The timestamp is not modelled. `new Date().toISOString()` (app.js:19) reads the clock and formats by library code, so the health report carries the reading it is given. Whether it parses as a date (tests/app.test.js:71-77) is left out.
- Soma: does not model JavaScript `Number` addition. That is IEEE-754 doubles with rounding, plus string concatenation for string arguments. The model is exact integer addition.
- ValidarEmail: takes a Dafny `string`. It does not model the conversion of a non-string argument to a string that `RegExp.prototype.test` performs. It also does not model JavaScript's UTF-16 code units. A well-formed non-BMP character becomes two code units, and both are in `[^\s@]`, so acceptance does not change. A lone surrogate cannot be written as a Dafny `char`.
- The `toBeValidEmail` matcher in tests/setup.js:44-59 is not modelled separately. It uses the same regular expression and is covered by `ValidarEmail`.
- The rest of tests/setup.js and jest.config.js are not modelled. They are test-harness configuration with no logic.
- The performance tests (tests/app.test.js:83-99) are not modelled. They measure wall-clock time.
