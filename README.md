# Portfolio project table

A model of the in-memory project table of a small Express portfolio server
(`app.ts`) and of the two request-time checks around it. The table is an
ordered list of project records that starts with two seed rows. Three POST
routes change it in place:

- **create** appends a record whose id is one more than the largest id, or 1 on an empty table;
- **update** patches the record with the given id in its slot, field by field, keeping the old value wherever the submitted one is falsy;
- **delete** splices that record out.

Update and delete first read the path id with `parseInt`. NaN is answered
with a 400 and the text "ID do projeto inválido.". A number that names no
record is a silent no-op followed by the redirect to `/admin`. The admin page
is guarded by `adminAuth`, which passes a request exactly when its `auth`
query value is the string `"true"`. The login form redirects to
`/admin?auth=true` exactly when the submitted `senha` equals the fixed
password `"123"`.

Layout:

- `wrappers.dfy`: `Option`, standing for a JavaScript value that may be `undefined`.
- `parse_int.dfy` (`JsParseInt`): ECMAScript `parseInt` without a radix. It skips leading white space, reads an optional sign and an optional `0x`/`0X` prefix, then the longest digit prefix; `None` is NaN.
- `projects.dfy` (`Projects`): the `Project` record and the seed rows. It holds the id computation and the value-level specification of the table after create, update and delete (`Created`, `Updated`, `Deleted`), with the lemmas about them.
- `http.dfy` (`Http`): the handler responses (redirect, 400, render) and the fixed paths and message.
- `auth.dfy` (`Auth`): `adminAuth` and the login handler, both pure.
- `app.dfy` (`App`): class `Portfolio`, whose `projects` field is the module-level array `projetos`. Its methods are the route handlers that read or change it. `FindIndex` is the `findIndex` scan as a loop.

Body fields and query values are `Option<string>`. `None` is `undefined`.
Only `Some(s)` with `s != ""` is truthy. Create stores the submitted values
as they come, `undefined` included, because the source does not validate
them.

Behaviour of the code worth noting:

- Only `GET /admin` passes through `adminAuth`. The create, update and delete POST routes are not gated, so their handlers take no token.
- The next id is one more than the largest id still present, so a deleted id can be handed out again. `Projects.DeletedLargestIdIsReused` shows id 2 reissued on the seed table, and `Projects.DeletingLargestIdLowersNextId` shows in general that after the largest id is deleted the next id is no larger than it.
- `GET /projetos` (app.ts:71-73) renders the current table without `adminAuth`, so the table is publicly readable.

## Model

| member | source | states |
|---|---|---|
| `Projects.SeedIsValid` | app.ts:19-22 | the seed table's ids (1 and 2) are strictly positive and distinct |
| `Projects.MaxId` | app.ts:91 | `Math.max` over the ids of a non-empty table is an upper bound of every id and is itself one of the ids |
| `Projects.NextId` | app.ts:91 | the new id is larger than every id in the table, is 1 on an empty table, and otherwise is one more than an id present (so exactly max + 1) |
| `Projects.FirstIndex` | app.ts:119 | the `findIndex` result is -1 exactly when no record has the id, otherwise an index holding the id with no earlier index holding it |
| `Projects.CreateSpec` | app.ts:88-101 | create appends exactly one record at the end, leaves the old prefix intact, gives it an id no old record has, the submitted values as fields, and keeps ids positive and distinct |
| `Projects.UpdateSpec` | app.ts:119-135 | update keeps the length and every id in place; a missing id changes nothing; on a found id every other record is unchanged and each field becomes the submitted value when truthy, else keeps the old value |
| `Projects.UpdatePreservesValid` | app.ts:126-135 | update keeps ids positive and pairwise distinct |
| `Projects.UpdateWithNothingTruthy` | app.ts:129-132 | a submission whose four values are all undefined or empty leaves the table unchanged |
| `Projects.UpdateIdempotent` | app.ts:119-135 | applying the same update twice gives the same table as applying it once |
| `Projects.SpliceOutAt` | app.ts:161 | `splice(index, 1)` shortens the table by one; records before the slot stay, records after it move one slot down |
| `Projects.SpliceOutMember` | app.ts:161 | a record is in the spliced table exactly when it sat in the old table at another slot |
| `Projects.DeleteMembers` | app.ts:156-161 | with distinct ids, the records left after delete are exactly the old records whose id differs from the deleted one |
| `Projects.DeleteKeepsOrder` | app.ts:161 | the records left after delete keep their old relative order |
| `Projects.DeletePreservesValid` | app.ts:161 | delete keeps ids positive and pairwise distinct |
| `Projects.DeleteSpec` | app.ts:154-176 | delete of a missing id changes nothing; of a present one removes exactly that record, length minus one, order kept, invariant kept |
| `Projects.DeleteUndoesCreate` | app.ts:91-161 | on every table, deleting the id a create just assigned gives back the table before the create |
| `Projects.DeletedLargestIdIsReused` | app.ts:91 | after deleting id 2 from the seed table no record has id 2, and the next create assigns 2 again |
| `Projects.Seed` | app.ts:19-22 | the two seed records with ids 1 and 2; `Projects.SeedIsValid` carries its property |
| `Projects.Truthy` | app.ts:129-132 | JavaScript truthiness of a body value: only a non-empty string is truthy; `Projects.UpdateSpec` carries its use |
| `Projects.Or` | app.ts:129-132 | JavaScript `submitted \|\| existing`; its effect on a record is stated by `Projects.UpdateSpec` |
| `Projects.Patched` | app.ts:126-133 | the record update writes: same id, each field merged by `Or`; stated by `Projects.UpdateSpec` |
| `Projects.NewProject` | app.ts:93-99 | the record create builds, the next id and the submitted values as they come; stated by `Projects.CreateSpec` |
| `Projects.Created` | app.ts:91-101 | the table after create, the old one with `NewProject(NextId(s), b)` appended; stated by `Projects.CreateSpec` |
| `Projects.Updated` | app.ts:119-135 | the table after update, the first record with the id replaced by `Patched` in its slot; stated by `Projects.UpdateSpec` |
| `Projects.SpliceOut` | app.ts:161 | `splice(index, 1)`, the table without one slot; stated by `Projects.SpliceOutAt` |
| `Projects.Deleted` | app.ts:156-161 | the table after delete, the first record with the id spliced out; stated by `Projects.DeleteSpec` |
| `Projects.DeletingLargestIdLowersNextId` | app.ts:91 | on a valid non-empty table, after the record with the largest id is deleted, the next id is at most that largest id, so it can be handed out again |
| `JsParseInt.ParseInt` | app.ts:110 | `parseInt(req.params.id)` without a radix, `None` for NaN: trim the white space, then `ParseSigned`; stated by the `ParseIntOf...` lemmas |
| `JsParseInt.ParseSigned` | app.ts:110 | an optional `+` or `-`, the minus negating what `ParseUnsigned` reads; stated by `JsParseInt.ParseIntOfMinus` |
| `JsParseInt.ParseUnsigned` | app.ts:146 | radix 16 after `0x`/`0X`, else radix 10, then the value of the longest digit prefix, NaN when it is empty; stated by `JsParseInt.ParseIntOfDigits` |
| `JsParseInt.ParseIntOfDigits` | app.ts:110 | any non-empty decimal digit string, leading zeros included, alone or followed by a non-digit other than an `x`/`X` right after a lone "0" (the hexadecimal prefix), parses to its value |
| `JsParseInt.ParseUnsignedOfDigits` | app.ts:110 | unsigned decimal digits, leading zeros included, followed by nothing or by a non-digit that does not make a lone "0" into the `0x` prefix, read as their value |
| `JsParseInt.ParseIntOfMinus` | app.ts:110 | a minus sign before any unsigned numeral, decimal or hexadecimal, parses to the negation of what the numeral alone reads as |
| `JsParseInt.ParseIntOfLeadingZeros` | app.ts:146 | the path id "007" parses to 7, so leading zeros name the same record |
| `JsParseInt.TrimStart` | app.ts:110 | the leading white space parseInt skips is a prefix made only of white space, and what remains does not start with white space |
| `JsParseInt.DigitPrefixLength` | app.ts:110 | the digits parseInt reads are the longest prefix of radix digits |
| `JsParseInt.ParseIntOfNumeral` | app.ts:110 | a canonical decimal numeral as `String(n)` writes it, alone or followed by a non-digit other than an `x`/`X` right after "0" (the hexadecimal prefix), as in "12abc", parses back to `n` |
| `JsParseInt.ParseIntOfNegativeNumeral` | app.ts:110 | a minus sign before a canonical numeral as `String(n)` writes it, alone or followed by a non-digit other than an `x`/`X` right after "0", parses to `-n` |
| `JsParseInt.ParseIntSkipsWhiteSpace` | app.ts:110 | leading white space does not change the parse |
| `JsParseInt.ParseIntRejects` | app.ts:114-117 | a path id that starts with anything but white space, a sign or a digit (such as "abc") is NaN, the 400 case |
| `Auth.AdminPassword` | app.ts:38 | the fixed clear-text admin password "123"; its use is stated by `Auth.Login` |
| `Auth.AdminAuth` | app.ts:41-52 | the gate passes the request exactly when `auth` is the string "true" and otherwise redirects to `/login` |
| `Auth.Login` | app.ts:186-196 | login redirects to `/admin?auth=true` exactly when the password is "123", and otherwise re-renders `login` with the error flag set |
| `App.Portfolio.constructor` | app.ts:19-22 | a new table holds the seed rows and satisfies the id invariant |
| `App.Portfolio.FindIndex` | app.ts:119 | the linear scan returns the first index whose record has the id, or -1 |
| `App.Portfolio.GetAdmin` | app.ts:81-83 | with `auth` = "true" the admin view is rendered with the current table, otherwise the answer is the redirect to `/login` |
| `App.Portfolio.PostCreate` | app.ts:86-104 | the new table is the old one with the new record appended, the invariant holds, and the answer is the redirect to `/admin` |
| `App.Portfolio.PostUpdate` | app.ts:108-140 | a NaN id answers 400 with "ID do projeto inválido." and keeps the table; a number patches the first record with that id (none: unchanged) and redirects to `/admin`; the invariant holds |
| `App.Portfolio.PostDelete` | app.ts:143-177 | a NaN id answers 400 with "ID do projeto inválido." and keeps the table; a number splices out the first record with that id (none: unchanged) and redirects to `/admin`; the invariant holds |
| `App.SeedSession` | app.ts:86-177 | from the seed, creating "Z" and then deleting id 1 leaves an admin view of exactly two records, ids 2 and 3 in that order |

## Left out

- The Express application, its middleware, static serving, body parsers, view engine and `app.listen` (app.ts:1-6, 24-35, 217-220): framework plumbing. Rendering is reduced to the view name and its data.
- `src/routes/server.ts`: only the bootstrap of another variant and its 404 fallback. It imports `./routes/index.routes`, which is not part of this model.
- `GET /`, `GET /login` and `GET /rota-teste` (app.ts:58-68, 180-183, 201-212): renders with fixed data and no logic.
- `GET /projetos` (app.ts:71-73): renders the current table, ungated, with no logic of its own.
- All `console.log` calls, including the branch of delete that can only log (a splice at a found index always removes one record).
- Non-string body and query values (arrays and objects from the extended URL-encoded parser, JSON numbers): fields and query values are modelled as a string or `undefined` only.
- Ids and parsed numbers are unbounded integers. Doubles, precision loss beyond 2^53, `-0`, and `Math.max` failing on a very large spread are not modelled.
- Strings are sequences of Unicode scalar values rather than UTF-16 code units. This does not matter for the white space and digits parseInt looks at.
- Concurrency: there is none; each handler runs to completion.
- `JsParseInt.ParseUnsigned`: the hexadecimal path of parseInt (`0x`/`0X`) is modelled, but no lemma computes the value of a hexadecimal numeral; the value lemmas cover decimal digits only.
- `JsParseInt.ParseIntOfNegativeNumeral`: stated for canonical numerals only. A minus sign before digits with leading zeros ("-007") follows from `JsParseInt.ParseIntOfMinus` and `JsParseInt.ParseUnsignedOfDigits` together, with no single lemma for it.
