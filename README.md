# myfinances ledger core in Dafny

This project models the core of *myfinances*, a Spring Boot personal-finance
API in Java. Users register with an e-mail and a password. Each user records
entries ("lançamentos"): an income (RECEITA) or an expense (DESPESA) with a
description, a month, a year and an amount. An entry is PENDENTE, CANCELADO
or EFETIVADO. A user's balance is settled income minus settled expense.

The model covers three classes:

- **LancamentoServiceImpl.** It validates entries, creates, updates and
  deletes them, changes their status, looks them up by id, searches them by
  example and computes a user's balance.
- **UsuarioServiceImpl.** It authenticates, registers a user when the e-mail
  is free, and looks users up by id.
- **LancamentoController.** It turns a request body into an entity and makes
  its own checks before calling the services: the type name in a search, and
  the status name in a status change. It always looks an entry up before it
  updates, re-statuses or deletes it.

How the model is built:

- Entities are datatypes, and a nullable Java reference is an `Option`.
- `BigDecimal` amounts are `real`. `Integer` month and year are a 32-bit
  `int32`. Exceptions are the `Error` datatype, and a call that may throw
  returns a `Result` or an `Outcome`.
- Each service is a class. Its JPA repository is a field
  `repository: map<int, T>` (the rows, keyed by id) plus `nextId`, the id
  generator.
- `save` with an id that names a stored row overwrites that row. Any other
  `save` inserts under `nextId`.
- Read-only operations are functions. They take the rows explicitly, so the
  controller and the lemmas can use them.
- Each class keeps an invariant `Valid()`. For entries: every row is stored
  under its own id and passes validation. For users: every row is stored
  under its own id, and no two users share an e-mail.

Modules, one file each:
`Wrappers`, `Store` (the map store and sums over key sets), `JavaText`
(`String.trim`, `toLowerCase`, `contains`, `Integer.toString`), `Entities`,
`LancamentoRules` (validation, lookup, search, balance), `Saldo` (an
independent balance definition and how writes move it), `LancamentoService`,
`UsuarioService`, `LancamentoController`, and `Cenarios` (a worked session).

Where the code, its documentation and its tests disagree, the model follows
the code:

- The service calls the sum query with three arguments (user, type, status).
  The repository declares it with two parameters, and its JPQL text has no
  status condition. The model follows the call. See Findings.
- The user-service test expects the messages "Usuário não encontrado!" and
  "Senha inválida!". The implementation throws "Usuário não encontrado para o
  email informado" and "Senha incorreta", and the model uses the
  implementation's strings.

The source paths in the table are relative to the repository's root.

## Model

| member | source | states |
|---|---|---|
| LancamentoRules.Validar | src/main/java/com/challenge/myfinances/model/service/implementation/LancamentoServiceImpl.java:69-88 | validation passes exactly when all six guards hold, in source order; otherwise it throws a BusinessRuleException with the message of the first guard that fails |
| LancamentoRules.ValidarAcceptsExactly | src/main/java/com/challenge/myfinances/model/service/implementation/LancamentoServiceImpl.java:71-87 | the accepted entries, stated on values: the description has a non-white-space character, month 1..12, year text 4 long (1000..9999 or -999..-100), user with id, amount > 0, type present |
| LancamentoRules.MessagesDistinct | src/main/java/com/challenge/myfinances/model/service/implementation/LancamentoServiceImpl.java:72-87 | the six messages are pairwise distinct, so a message identifies its guard |
| LancamentoRules.DescricaoFailsFirst | src/main/java/com/challenge/myfinances/model/service/implementation/LancamentoServiceImpl.java:71-72 | a null or all-white-space description fails with "Informe uma Descricao válida", whatever the other fields hold |
| LancamentoRules.NovoLancamentoFailsOnDescricao | src/test/java/com/challenge/myfinances/model/service/LancamentoServiceTest.java:202-208 | an all-null entry fails on its description |
| LancamentoRules.MesFailsSecond | src/main/java/com/challenge/myfinances/model/service/implementation/LancamentoServiceImpl.java:74-75 | with a valid description, a null month or one outside 1..12 fails with the month message |
| LancamentoRules.AnoFailsThird | src/main/java/com/challenge/myfinances/model/service/implementation/LancamentoServiceImpl.java:77-78 | after description and month, a null year or one outside 1000..9999 and -999..-100 fails with the year message |
| LancamentoRules.AnoExamples | src/main/java/com/challenge/myfinances/model/service/implementation/LancamentoServiceImpl.java:77 | 999, 10000 and -1000 are rejected as years; 2020 and -100 are accepted |
| LancamentoRules.LaterGuardsInOrder | src/main/java/com/challenge/myfinances/model/service/implementation/LancamentoServiceImpl.java:80-87 | after the first three guards: a missing user or user id, then a null or non-positive amount, then a null type, each with its message |
| LancamentoRules.ValidarTestDescricaoEMes | src/test/java/com/challenge/myfinances/model/service/LancamentoServiceTest.java:210-246 | the test's empty description and its null, -1 and 13 months fail with the messages the test expects |
| LancamentoRules.ValidarTestAnoEUsuario | src/test/java/com/challenge/myfinances/model/service/LancamentoServiceTest.java:248-282 | the test's null and 999 years, then its null user and user without id, fail with the expected messages |
| LancamentoRules.ValidarTestValorETipo | src/test/java/com/challenge/myfinances/model/service/LancamentoServiceTest.java:284-309 | the test's null and zero amounts and its null type fail with the expected messages; the same entry with a type passes |
| LancamentoRules.ValidarIgnoresIdAndStatus | src/main/java/com/challenge/myfinances/model/service/implementation/LancamentoServiceImpl.java:69-88 | validation never depends on the id or the status |
| LancamentoRules.ObterPorId | src/main/java/com/challenge/myfinances/model/service/implementation/LancamentoServiceImpl.java:91-95 | returns the stored row exactly when the id is stored; otherwise throws "Lançamento não encontrado" |
| LancamentoRules.Buscar | src/main/java/com/challenge/myfinances/model/service/implementation/LancamentoServiceImpl.java:53-59 | the result is exactly the stored rows, unchanged and under their ids, that match every non-null field of the example |
| LancamentoRules.DescricaoContemIff | src/main/java/com/challenge/myfinances/model/service/implementation/LancamentoServiceImpl.java:54-57 | the description filter holds exactly when the lower-cased text occurs at some position of the lower-cased description |
| LancamentoRules.BuscarSemFiltro | src/main/java/com/challenge/myfinances/model/service/implementation/LancamentoServiceImpl.java:53-59 | an all-null example returns every stored row |
| LancamentoRules.BuscarNarrows | src/main/java/com/challenge/myfinances/model/service/implementation/LancamentoServiceImpl.java:53-59 | an example that fixes more fields returns a subset of the rows |
| LancamentoRules.SomaValor | src/main/java/com/challenge/myfinances/model/service/implementation/LancamentoServiceImpl.java:100-101 | the sum query as the service calls it: null exactly when no row qualifies, otherwise the sum of the qualifying amounts |
| LancamentoRules.SomaValorDeclarada | src/main/java/com/challenge/myfinances/model/repository/LancamentoRepository.java:14-20 | the query as declared: null exactly when no row of that user and type exists, otherwise their sum, whatever their status |
| LancamentoRules.SomaValorDeclaradaContaPendente | src/main/java/com/challenge/myfinances/model/repository/LancamentoRepository.java:14-20 | a single pending income of 100 is summed by the declared query, but not by the query with the status the service passes |
| Saldo.NaoEfetivadoNaoConta | src/main/java/com/challenge/myfinances/model/service/implementation/LancamentoServiceImpl.java:100-101 | a pending or cancelled entry contributes nothing to a balance |
| Saldo.SomaValorOrZero | src/main/java/com/challenge/myfinances/model/service/implementation/LancamentoServiceImpl.java:103-105 | a null sum read as zero equals the sum over all rows of the amounts of that user's settled entries of the type |
| Saldo.SaldoIsReferencia | src/main/java/com/challenge/myfinances/model/service/implementation/LancamentoServiceImpl.java:99-108 | the balance equals the independent definition: the sum over all rows of +amount for settled income and -amount for settled expense of that user |
| Saldo.SaldoZeroSemEfetivados | src/main/java/com/challenge/myfinances/model/service/implementation/LancamentoServiceImpl.java:99-108 | with nothing settled for the user (in particular with no rows), the balance is zero |
| Saldo.SaldoAfterWrite | src/main/java/com/challenge/myfinances/model/service/implementation/LancamentoServiceImpl.java:99-108 | writing a row moves every balance by the new row's contribution minus the old one's |
| Saldo.SaldoAfterRemove | src/main/java/com/challenge/myfinances/model/service/implementation/LancamentoServiceImpl.java:99-108 | removing a row takes its contribution out of every balance |
| LancamentoService.LancamentoServiceImpl.Save | src/main/java/com/challenge/myfinances/model/service/implementation/LancamentoServiceImpl.java:33 | the repository `save`: the entity under the id the store assigns is written, the generator moves past a new id, the invariant is kept |
| LancamentoService.LancamentoServiceImpl.Salvar | src/main/java/com/challenge/myfinances/model/service/implementation/LancamentoServiceImpl.java:30-34 | an invalid entry throws the validator's error and nothing is written; a valid one is saved as PENDENTE; no balance gains anything, and one loses only the contribution of the row the save overwrites |
| LancamentoService.LancamentoServiceImpl.Atualizar | src/main/java/com/challenge/myfinances/model/service/implementation/LancamentoServiceImpl.java:38-42 | a null id throws NullPointerException first, then validation; failures write nothing; success saves the entry with its own status, and balances move by the new contribution minus the replaced one |
| LancamentoService.LancamentoServiceImpl.Deletar | src/main/java/com/challenge/myfinances/model/service/implementation/LancamentoServiceImpl.java:46-49 | a null id throws NullPointerException and nothing changes; otherwise the row with that id (if any) is removed and its contribution leaves every balance |
| LancamentoService.LancamentoServiceImpl.AtualizarStatus | src/main/java/com/challenge/myfinances/model/service/implementation/LancamentoServiceImpl.java:63-66 | sets the status and behaves as `atualizar` on the result; on success the stored row carries the new status |
| JavaText.TrimStartIsSuffix | src/main/java/com/challenge/myfinances/model/service/implementation/LancamentoServiceImpl.java:71 | removing leading white space keeps a suffix that starts with a non-white-space character, and every removed character is white space (at most U+0020) |
| JavaText.TrimEndIsPrefix | src/main/java/com/challenge/myfinances/model/service/implementation/LancamentoServiceImpl.java:71 | removing trailing white space keeps a prefix that ends with a non-white-space character, and every removed character is white space |
| JavaText.TrimHasNoWhiteSpaceAtEnds | src/main/java/com/challenge/myfinances/model/service/implementation/LancamentoServiceImpl.java:71 | a non-empty trimmed string neither starts nor ends with white space |
| JavaText.TrimIsEmptyIff | src/main/java/com/challenge/myfinances/model/service/implementation/LancamentoServiceImpl.java:71 | `trim()` gives "" exactly when every character is white space |
| JavaText.ToLowerChar | src/main/java/com/challenge/myfinances/model/service/implementation/LancamentoServiceImpl.java:56 | upper-case ASCII letters move by 32 to lower case, and exactly the ASCII letters map to lower-case ASCII |
| JavaText.ToLowerIdempotent | src/main/java/com/challenge/myfinances/model/service/implementation/LancamentoServiceImpl.java:56 | lower-casing twice is lower-casing once |
| JavaText.ContainsIff | src/main/java/com/challenge/myfinances/model/service/implementation/LancamentoServiceImpl.java:57 | containment holds exactly when the text occurs at some position |
| JavaText.IntegerToString | src/main/java/com/challenge/myfinances/model/service/implementation/LancamentoServiceImpl.java:77 | the decimal text is non-empty and starts with '-' exactly for negative numbers |
| JavaText.IntegerToStringHasLengthFour | src/main/java/com/challenge/myfinances/model/service/implementation/LancamentoServiceImpl.java:77 | the decimal text is 4 long exactly for 1000..9999 and -999..-100 |
| Entities.StatusValueOf | src/main/java/com/challenge/myfinances/api/controller/LancamentoController.java:117 | `valueOf` succeeds exactly on the three status names and inverts `name()` |
| Entities.TipoValueOf | src/main/java/com/challenge/myfinances/api/controller/LancamentoController.java:163 | `valueOf` succeeds exactly on the two type names and inverts `name()` |
| Store.AssignedId | src/main/java/com/challenge/myfinances/model/service/implementation/LancamentoServiceImpl.java:33 | `save` keeps an id that names a stored row; any other entity gets the fresh id |
| UsuarioService.FindByEmail | src/main/java/com/challenge/myfinances/model/repository/UsuarioRepository.java:10 | empty exactly when no user has the e-mail; otherwise a stored user with that e-mail |
| UsuarioService.FindByEmailUnique | src/main/java/com/challenge/myfinances/model/repository/UsuarioRepository.java:10 | with unique e-mails, `findByEmail` returns exactly the user stored with that e-mail |
| UsuarioService.Autenticar | src/main/java/com/challenge/myfinances/model/service/implementation/UsuarioServiceImpl.java:26-37 | an unknown e-mail throws "Usuário não encontrado para o email informado"; a known one with any other failure throws "Senha incorreta"; a success is a stored user with that e-mail and password |
| UsuarioService.AutenticarIff | src/main/java/com/challenge/myfinances/model/service/implementation/UsuarioServiceImpl.java:26-37 | with unique e-mails, authentication succeeds exactly for a stored e-mail and password pair, and returns that user |
| UsuarioService.ValidarEmail | src/main/java/com/challenge/myfinances/model/service/implementation/UsuarioServiceImpl.java:47-50 | passes exactly when no stored user has the e-mail; otherwise throws "Já existe um usuario cadastrado com esse email" |
| UsuarioService.ObterPorId | src/main/java/com/challenge/myfinances/model/service/implementation/UsuarioServiceImpl.java:53-56 | returns the stored user exactly when the id is stored; otherwise throws "Usuário não encontrado" |
| UsuarioService.UsuarioServiceImpl.Cadastrar | src/main/java/com/challenge/myfinances/model/service/implementation/UsuarioServiceImpl.java:41-44 | a taken e-mail throws and writes nothing; otherwise the user is saved under its assigned id; e-mails stay unique, and the new user can then authenticate with its e-mail and password |
| LancamentoController.ToEntity | src/main/java/com/challenge/myfinances/api/controller/LancamentoController.java:150-169 | plain fields are copied; the user is resolved by id, then the type and the status by name; the first failure decides the error (unknown user: BusinessRuleException; bad name: IllegalArgumentException), and the conversion succeeds exactly when none fails |
| LancamentoController.ToModel | src/main/java/com/challenge/myfinances/api/controller/LancamentoController.java:137-148 | the response body carries the plain fields, the user's id and the type and status names; a null user, type or status throws NullPointerException |
| LancamentoController.ToEntityOfToModel | src/main/java/com/challenge/myfinances/api/controller/LancamentoController.java:137-169 | an entity whose user is stored under its id converts to a body and back unchanged |
| LancamentoController.ToModelOfToEntity | src/main/java/com/challenge/myfinances/api/controller/LancamentoController.java:137-169 | a body with user, type and status that converts to an entity converts back to the same body |
| LancamentoController.LancamentoController.Buscar | src/main/java/com/challenge/myfinances/api/controller/LancamentoController.java:48-76 | checks the type name first, so a search fails only with a BusinessRuleException (bad type, then unknown user), and it succeeds exactly when neither applies; it returns exactly the user's rows that match the optional description, month, year and type |
| LancamentoController.LancamentoController.Atualizar | src/main/java/com/challenge/myfinances/api/controller/LancamentoController.java:91-100 | an unknown id fails before the body is converted; success replaces the stored row in place under that id and never adds a row; any failure writes nothing |
| LancamentoController.LancamentoController.AtualizarStatusLancamento | src/main/java/com/challenge/myfinances/api/controller/LancamentoController.java:103-125 | the lookup comes first, then a null status throws NullPointerException, then a non-status name throws BusinessRuleException; it succeeds exactly otherwise, returning the stored row with only its status changed |
| LancamentoController.LancamentoController.Deletar | src/main/java/com/challenge/myfinances/api/controller/LancamentoController.java:128-135 | an unknown id fails and nothing changes; a stored id is removed |
| Cenarios.EntradaValida | src/main/java/com/challenge/myfinances/model/service/implementation/LancamentoServiceImpl.java:69-88 | a January 2020 entry with a non-blank description, a positive amount and a user with an id passes validation |
| Cenarios.LancarSalarioEAluguel | src/main/java/com/challenge/myfinances/model/service/implementation/LancamentoServiceImpl.java:30-34 | saving a salary and a rent into an empty ledger stores both as PENDENTE under ids 0 and 1, with a zero balance |
| Cenarios.EfetivarSalario | src/main/java/com/challenge/myfinances/model/service/implementation/LancamentoServiceImpl.java:63-66 | settling the salary of 1000 moves the balance from 0 to 1000 and leaves the rent stored as it was |
| Cenarios.EfetivarAluguel | src/main/java/com/challenge/myfinances/model/service/implementation/LancamentoServiceImpl.java:63-66 | then settling the rent of 400 moves the balance from 1000 to 600 |
| Cenarios.SalarioMenosAluguel | src/main/java/com/challenge/myfinances/model/service/implementation/LancamentoServiceImpl.java:99-108 | over the session the balance reads 0, then 1000, then 600 |

## Left out

- Spring, HTTP and JSON are not modelled. A handler's response is the `Result` it is built from: `Success` is the 200/201/204 answer and `Failure` the exception. The model does not separate the exceptions a handler catches (400) from those it lets through (500).
- Controller endpoints outside `buscar`, `atualizar`, `atualizarStatusLancamento`, `deletar` and `toEntity`/`toModel` are not modelled: `get` and `salvar` only forward to the service. The UsuarioController is not part of this model. The DTO and JPA entity classes enter only through the fields listed in `Entities`.
- The entry's registration date (`dataCadastro`, set in src/test/java/com/challenge/myfinances/model/repository/LancamentoRepositoryTest.java:105) is not modelled. So the model does not show that the controller's `atualizar`, whose entity comes from `toEntity` and never gets a date, writes that unset date over the stored one. It also assumes `new Lancamento()` leaves every field null; were the date given a default, the example `buscar` builds would filter on it too.
- Mutation of the caller's object is not modelled. The service sets the status on the very entity it is given (`salvar`, `atualizarStatus`) and JPA may update it in place. Here entities are values and the saved copy is returned.
- LancamentoRules.Buscar returns a map keyed by id, not a `List`. It does not model the order of the rows the database returns.
- LancamentoRules.Matches compares the nested user of the example by id only. Spring's matcher would also compare the user's other non-null properties; the controller's user comes from the repository, so they agree there.
- JavaText.ToLowerChar maps ASCII and the Latin-1 upper-case letters (U+00C0 to U+00DE except U+00D7) only. Full Unicode case mapping, and the database's own case-insensitive comparison, are not modelled.
- User names, e-mails and passwords are never null here. The NullPointerException that a null stored password would cause in `autenticar` is not modelled.
- UsuarioService.FindByEmail picks the least id when several users share an e-mail. Spring would throw instead. The class invariant (unique e-mails) rules that case out.
- Ids are unbounded integers: `Long` overflow of the id generator is not modelled. `BigDecimal` is an exact `real`, with scale and rounding left out.
- Transactions, concurrency and the database's own id generation strategy are not modelled. Ids are generated in increasing order from 0.

## Findings

| source | as written | input that shows it | evidently intended | confidence | as-written member | corrected member |
|---|---|---|---|---|---|---|
| src/main/java/com/challenge/myfinances/model/repository/LancamentoRepository.java:14-20 | the sum query's JPQL text filters by user and type only and declares no status parameter, while `obterSaldoPorUsuario` passes EFETIVADO as a third argument | a user with one pending income of 100 and nothing else: the declared query sums 100, although nothing is settled | the balance counts settled entries only (the status the service passes), so a pending entry contributes nothing | not executed; the call and the declaration also disagree in arity | LancamentoRules.SomaValorDeclaradaContaPendente | LancamentoRules.SomaValor (with Saldo.SaldoIsReferencia and Saldo.NaoEfetivadoNaoConta) |
