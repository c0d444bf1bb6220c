# Conecta Uniforme — a verified model of its core

Conecta Uniforme connects schools, uniform suppliers and parents (responsáveis):
schools approve ("homologate") suppliers, parents fill a cart and place orders,
and suppliers move orders along a status flow. Users log in without a password,
by a one-time code sent by email or by a passkey. This project models, in Dafny,
the parts of the Flask and PHP code whose behaviour can be stated precisely:

- the passwordless login of `modules/autenticacao/module.py` (access codes,
  WebAuthn challenges and credentials, profile choice when one email owns several
  accounts, the session gate), the older token-backed `modules/autenticacao.py`
  with its `sessoes` table, and the PHP code store `classes/CodigoAcesso.php`;
- the unpadded base64url helpers (RFC 4648, sections 5 and 3.2);
- the CPF/CNPJ/CEP/phone/email validators and the CPF/CNPJ formatters of
  `utils.py` and `core/services.py`;
- `core/pagination.py` (the `Pagination` value, `iter_pages`, `paginate_query`,
  `build_where_clause`) and `verificar_dependencias`;
- the audit-log diff `_preparar_detalhes_logs`;
- the `.env` loader and `env()` lookup of `config.php`;
- the cart (`Carrinho.php`), the all-or-nothing order creation (`Pedido.php`),
  the order-status table and its role gate (`Model/pedidos-gerenciar.php`);
- supplier homologation (`Homologacao.php` and `modules/escolas/module.py`),
  school edit and delete, the school-manager form parser and `_pode_gerenciar`
  (`modules/gestores.py`);
- the user-maintenance guards of `modules/usuarios.py` and
  `modules/usuarios/module.py`, including the last-active-admin rule.

Every SQL table is a sequence (or map) of rows held by a class whose methods
perform the statements the handler issues; each method's postcondition gives the
new table as a function of the old one, and the properties are proved as lemmas
about those functions. The clock (`now`, in seconds), random draws, email
delivery, the WebAuthn library's verdict and the success of each database write
(and of the reads whose failure the model follows) are parameters.

Behaviours of the code a reader might not expect:

- a code request with one active account picks that account whatever `tipo` was
  sent, while a passkey login with a `tipo` insists on it
  (`Accounts.ChoiceRulesDiffer`);
- `Pedido::criar` counts changed rows of the stock UPDATE, so an item of quantity
  0 aborts the whole order;
- a new order gets the status `pendente`, which is not a key of the status table
  (`OrderStatus.CreatedStatusUnlisted`);
- the older module's login does not write `logged_in`;
- the last-admin guard of the user edit looks at `ativo` only, so demoting the
  last active administrator goes through (`Users.DemotionLeavesNoAdmin`), and
  the refactored edit drops the (email, tipo) uniqueness check
  (`Users.RefactoredEditMayDuplicate`);
- `env()` returns the first definition of a duplicated key while `getenv`
  returns the last (`EnvConfig.DuplicateKeyDisagrees`).

## Model

| member | source | states |
|---|---|---|
| AccessCodes.Prefix | classes/CodigoAcesso.php:32 | PHP `substr($s, 0, $n)`: a prefix of s of length n clamped to the length of s, or, for negative n, that length plus n |
| AccessCodes.DefaultConfig | classes/CodigoAcesso.php:30-44 | unset variables give codes of 6 characters that last 600 s, read as 600 / 60 = 10 minutes |
| AccessCodes.GenerateCode | classes/CodigoAcesso.php:28-33 | `gerarCodigo(n)` gives min(n, 36) characters (negative n drops from the end), all from `[0-9A-Z]`, none repeated |
| AccessCodes.Upper | classes/CodigoAcesso.php:32 | `strtoupper`: the same length, each lower-case ASCII letter replaced by its upper-case letter (32 code points lower), every other character unchanged, so no lower-case ASCII letter is left |
| AccessCodes.UpperKeepsAlphabet | classes/CodigoAcesso.php:32 | `strtoupper` leaves a string over the code alphabet unchanged |
| AccessCodes.NewAccessCode | classes/CodigoAcesso.php:43-49 | the inserted row carries email, code and tipo, is unused, is created now and expires the configured number of minutes later; it can validate at once iff that number is positive |
| AccessCodes.FindValid | classes/CodigoAcesso.php:66-72 | the newest row with matching email and code, unused and with `expira_em > now` (strict); None iff no row qualifies |
| AccessCodes.Cleanup | classes/CodigoAcesso.php:146-150 | keeps exactly the rows that are unused and have `expira_em >= now` |
| AccessCodes.CreateLeavesOneUnused | classes/CodigoAcesso.php:39-49 | after `criarCodigo` the new row is the only unused code of its email |
| AccessCodes.CreateKeepsInvariants | classes/CodigoAcesso.php:39-49 | whichever of the two writes go through, ids stay below the sequence; with the retirement, one unused code per email is kept and a stored code is its email's only unused one |
| AccessCodes.FailedRetireLeavesTwoUnused | classes/CodigoAcesso.php:39-49 | the retiring UPDATE's result is not checked: when it fails, an earlier unused code of the email stays usable beside the new one |
| AccessCodes.MarkUsedKeepsInvariants | classes/CodigoAcesso.php:80-81 | marking used keeps at most one unused code per email and the ids distinct |
| AccessCodes.CleanupKeepsOneUnused | classes/CodigoAcesso.php:148 | deleting rows keeps at most one unused code per email |
| AccessCodes.CleanupKeepsIds | classes/CodigoAcesso.php:148 | deleting rows keeps the ids distinct and below the next id |
| AccessCodes.InsertKeepsIds | classes/CodigoAcesso.php:48-49 | inserting with the next id keeps the ids distinct |
| AccessCodes.RetireKeepsIds | classes/CodigoAcesso.php:40 | retiring codes keeps the ids |
| AccessCodes.SecondValidationFails | classes/CodigoAcesso.php:76-86 | once a code validates and is marked used, validating it again, at any later time, finds nothing |
| AccessCodes.ValidationIgnoresTipo | classes/CodigoAcesso.php:61-72 | two tables that differ only in `tipo_usuario` validate the same row: binding is by email only |
| AccessCodes.CleanupBoundary | classes/CodigoAcesso.php:70 | a row with `expira_em == now` survives cleanup yet cannot validate; every row that can validate survives cleanup (also line 148) |
| AccessCodes.AccessCodeStore.constructor | classes/CodigoAcesso.php:11-13 | an empty table satisfying the invariant |
| AccessCodes.AccessCodeStore.Create | classes/CodigoAcesso.php:35-59 | retires the email's unused codes when that UPDATE goes through, then appends a code of the configured length expiring the configured minutes later when the INSERT succeeds and returns it with its expiry (None otherwise); with the retirement the new row is its email's only unused code |
| AccessCodes.AccessCodeStore.Validate | classes/CodigoAcesso.php:61-87 | returns the row `FindValid` picks, as read, and marks it used when that UPDATE goes through; no row gives None and no change |
| AccessCodes.AccessCodeStore.CleanupExpired | classes/CodigoAcesso.php:146-150 | returns whether the DELETE went through; the table becomes `Cleanup` of the old table when it did and stays as it was otherwise |
| Accounts.ActiveWithEmail | modules/autenticacao/module.py:136-137 | exactly the active rows of `usuarios` with the email |
| Accounts.InsertByTipo | modules/autenticacao/module.py:136 | inserting into a tipo-ordered list keeps it ordered and adds exactly the one row |
| Accounts.SortByTipo | modules/autenticacao/module.py:136 | `ORDER BY tipo`: the result is ordered by tipo and a permutation of the input |
| Accounts.ActiveAccounts | modules/autenticacao/module.py:136-137 | the email's active accounts, ordered by tipo |
| Accounts.WithTipo | modules/autenticacao/module.py:156 | an account with the tipo when one exists; None iff no account has it |
| Accounts.ChooseForCode | modules/autenticacao/module.py:142-159 | no account is an error; several and no tipo asks for the ordered tipo list; one account is chosen whatever tipo says; otherwise the tipo must name an account |
| Accounts.ChooseForLogin | modules/autenticacao/module.py:838-856 | as above, but a given tipo must match even for a single account, and no tipo takes the first account |
| Accounts.ChoiceRulesDiffer | modules/autenticacao/module.py:153-159 | the two rules differ exactly when the email has one account and the given tipo does not name it (also lines 848-853) |
| AuthModule.OwnerOf | modules/autenticacao/module.py:251-260 | the user the code row joins to, if any; None iff no user has the id |
| AuthModule.DefaultAuthConfig | config.py:50-52 | unset variables give codes valid 24 hours, 6 digits long, and sessions of 7 days |
| AuthModule.FindCode | modules/autenticacao/module.py:251-260 | the most recently created unused row with that code whose owner has the email and tipo; None iff no row matches |
| AuthModule.UsedCodeNeverFoundAgain | modules/autenticacao/module.py:256 | after a row is marked used, validation never selects a row with its id again (also lines 284-286) |
| AuthModule.MarkUsedNarrows | modules/autenticacao/module.py:256 | marking a row used never makes a failing validation succeed (also lines 284-286) |
| AuthModule.LatestChallenge | modules/autenticacao/module.py:448-449 | the unexpired challenge of the email with the latest expiry; None iff the email has none |
| AuthModule.DeleteChallenge | modules/autenticacao/module.py:457 | keeps exactly the rows with another challenge string |
| AuthModule.ChallengeConsumedOnce | modules/autenticacao/module.py:448-457 | a deleted challenge is never selected again, for any email at any time |
| AuthModule.InsertCredential | modules/autenticacao/module.py:590-601 | `ON CONFLICT (credential_id) DO NOTHING`: a duplicate id leaves the table unchanged, a new id is appended; ids stay unique |
| AuthModule.RevokeCount | modules/autenticacao/module.py:624-626 | the affected-row count is positive iff some row matches id and email |
| AuthModule.ActiveCredential | modules/autenticacao/module.py:808-811 | an active row with the credential id; None iff there is none |
| AuthModule.RevokedCannotLogIn | modules/autenticacao/module.py:623-626 | after a revocation that affected a row, the credential cannot be found for login (also lines 808-811) |
| AuthModule.RevokeIsScoped | modules/autenticacao/module.py:623 | revocation leaves a credential of another id or another email as it was |
| AuthModule.SignCountReplaced | modules/autenticacao/module.py:823 | after a login the stored counter is the verifier's value and the credential is still active (also line 835) |
| AuthModule.ActiveIdsOf | modules/autenticacao/module.py:393-397 | the non-empty credential ids of the email's active credentials |
| AuthModule.DecodeAll | modules/autenticacao/module.py:397 | each id decodes to the bytes `_decode_b64url` gives |
| AuthModule.DeleteChallengeKeepsWellFormed | modules/autenticacao/module.py:457 | deleting a challenge keeps every stored challenge valid base64url |
| AuthModule.AddChallengeKeepsWellFormed | modules/autenticacao/module.py:413-419 | storing an encoded challenge keeps every stored challenge valid base64url |
| AuthModule.InsertCredentialKeepsWellFormed | modules/autenticacao/module.py:586-601 | storing an encoded credential keeps ids and keys valid base64url |
| AuthModule.RevokeKeepsInvariants | modules/autenticacao/module.py:623 | revocation keeps ids unique and ids and keys valid base64url |
| AuthModule.SetSignCountKeepsInvariants | modules/autenticacao/module.py:835 | the counter update keeps ids unique and ids and keys valid base64url |
| AuthModule.CodeRequestTarget | modules/autenticacao/module.py:122-159 | an issued code goes to an active account of the table whose email is the normalised input; a refusal is always one of the request refusals |
| AuthModule.CodeRequestTargetMeaning | modules/autenticacao/module.py:122-159 | each refusal (email missing, malformed, unregistered, tipo choice needed, tipo invalid) happens exactly when its condition holds; otherwise the chosen active account gets the code |
| AuthModule.NewCode | modules/autenticacao/module.py:174-185 | the new row holds the configured number of random digits, belongs to the user, is unused, is created now and expires the configured `CODIGO_ACESSO_DURACAO_HORAS` hours later |
| AuthModule.CodeCheck | modules/autenticacao/module.py:238-281 | each refusal (fields missing, no matching unused row, expired with `now > expiry` strictly, owner inactive) happens exactly when its condition holds; an accepted row is unused, unexpired and has an active owner |
| AuthModule.AcceptedCodeCannotBeReplayed | modules/autenticacao/module.py:256 | once accepted and marked used, the same input never accepts that row again, at any later time (also lines 284-286) |
| AuthModule.ResolveLogin | modules/autenticacao/module.py:837-864 | success iff the login rule chooses an account, and then the session verifies as that account under the credential's email; a tipo choice is asked iff several accounts and no tipo; a failure leaves the session alone |
| AuthModule.AuthServer.constructor | modules/autenticacao/module.py:16-25 | the given settings and users, empty code, challenge and credential tables and an empty session |
| AuthModule.AuthServer.RequestCode | modules/autenticacao/module.py:108-214 | a refusal changes nothing; an issued code of the configured length is inserted only when the INSERT succeeds; the reply flags a failed email send only in debug mode |
| AuthModule.AuthServer.StoreCode | modules/autenticacao/module.py:181-185 | the new code row is appended under the next id; the table stays valid and nothing else changes |
| AuthModule.AuthServer.ValidateCode | modules/autenticacao/module.py:222-312 | a rejection leaves codes and session alone (an expired code stays unused); an acceptance marks the row used when that UPDATE goes through and, either way, writes the five session keys with `logged_in` true |
| AuthModule.AuthServer.ConsumeCode | modules/autenticacao/module.py:284-293 | the row is marked used when the UPDATE goes through, the five session keys are written regardless; the tables stay valid |
| AuthModule.AuthServer.Logout | modules/autenticacao/module.py:320-346 | the session is cleared, so it no longer verifies; no table changes |
| AuthModule.AuthServer.RegistrationOptionsFor | modules/autenticacao/module.py:370-431 | without a session or email, or when option generation fails, nothing is stored; otherwise the options are returned and the generated challenge is stored for the email, expiring 5 minutes after now, when the INSERT goes through |
| AuthModule.AuthServer.CompleteRegistration | modules/autenticacao/module.py:435-606 | refusals (no session, no email, no unexpired challenge) change nothing; otherwise the challenge is deleted (when that DELETE goes through) before verification, so a failed verification still consumes it; a verified credential is inserted (when the INSERT goes through, unless its id exists) and the reply is ok either way |
| AuthModule.AuthServer.DropChallenge | modules/autenticacao/module.py:457 | when the DELETE goes through every row with the challenge is deleted, otherwise nothing changes; the challenge table stays well formed |
| AuthModule.AuthServer.StoreCredential | modules/autenticacao/module.py:590-600 | the verified credential is inserted active unless its id exists; the credential table stays well formed |
| AuthModule.AuthServer.RevokeCredential | modules/autenticacao/module.py:610-642 | without a session or id nothing changes; a failed UPDATE ends in a server error with nothing changed; otherwise the owner's credential is deactivated and the reply is ok iff a row matched |
| AuthModule.AuthServer.LoginOptionsFor | modules/autenticacao/module.py:649-686 | the library's challenge is put in the session, and the first matching user when an email is given |
| AuthModule.AuthServer.Login | modules/autenticacao/module.py:690-883 | the session challenge is always popped; a missing challenge or id, an unknown credential or a failed verification changes nothing else; otherwise the counter is replaced (when that UPDATE goes through) and the account is resolved as `ResolveLogin` says |
| AuthModule.AuthServer.UpdateSignCount | modules/autenticacao/module.py:835 | when the UPDATE goes through the credential's counter is replaced, otherwise nothing changes; the tables stay valid |
| Base64Url.CharOf | modules/autenticacao/module.py:28 | each 6-bit value maps to a url-safe alphabet character, never `=` |
| Base64Url.ValueOf | modules/autenticacao/module.py:35 | an accepted character's value is below 64 and maps back to it |
| Base64Url.ValueOfCharOf | modules/autenticacao/module.py:28 | decoding a character recovers its value (also line 35) |
| Base64Url.EncodeCore | modules/autenticacao/module.py:28 | the unpadded encoding contains no `=` |
| Base64Url.EncodeCoreLength | modules/autenticacao/module.py:28 | the unpadded encoding has 4 characters per full group plus 2 or 3 for a 1- or 2-byte tail |
| Base64Url.StdEncode | modules/autenticacao/module.py:28 | `urlsafe_b64encode` output has a length that is a multiple of 4 |
| Base64Url.RStripPad | modules/autenticacao/module.py:28 | `rstrip('=')` yields a prefix with no trailing `=` and removes only `=` |
| Base64Url.PaddingFor | modules/autenticacao/module.py:34 | `'=' * (-len % 4)` brings the length to a multiple of 4 |
| Base64Url.EncodeIsCore | modules/autenticacao/module.py:28 | `_b64url` is the unpadded encoding, and restoring `-len % 4` padding gives back the standard encoding (also line 34) |
| Base64Url.PadLength | modules/autenticacao/module.py:34 | the restored padding length equals the stripped one |
| Base64Url.StripPadding | modules/autenticacao/module.py:28 | stripping `=` from a `=`-free text followed by padding removes exactly the padding |
| Base64Url.DecodeStd | modules/autenticacao/module.py:35 | decoding the standard padded encoding gives back the bytes |
| Base64Url.RoundTrip | modules/autenticacao/module.py:27-35 | `_decode_b64url(_b64url(b)) == b` for every byte string |
| Base64Url.EncodeShape | modules/autenticacao/module.py:28 | `_b64url` output contains no `=`, and its length is never 1 more than a multiple of 4 |
| Base64Url.DecodeRejectsLengthOneMod4 | modules/autenticacao/module.py:34-35 | a text of url-safe characters whose length is 1 more than a multiple of 4 does not decode: one data character is left over |
| Base64Url.DecodeAgrees | modules/autenticacao/module.py:30-35 | on unpadded url-safe text of admissible length the lenient decoder and the strict quad-by-quad decoder agree |
| Base64Url.DecodeSkipsForeign | modules/autenticacao/module.py:35 | a character outside the alphabet is skipped, not refused: a full quad followed by one such character decodes as the quad alone, where a strict decoder refuses |
| Base64Url.DecodeSkipsInsideQuad | modules/autenticacao/module.py:35 | a foreign character inside a quad is skipped too: the quad decodes from its alphabet characters, where a strict decoder refuses |
| Base64Url.DecodeStopsAtPadding | modules/autenticacao/module.py:35 | `==` after two data characters ends decoding: whatever follows is ignored and one byte comes out, where a strict decoder refuses |
| Base64Url.EncodeWellFormed | modules/autenticacao/module.py:28 | everything `_b64url` emits is unpadded url-safe text |
| Base64Url.WellFormedDecodes | modules/autenticacao/module.py:30-35 | every unpadded url-safe text of admissible length decodes |
| Base64Url.DecodeValid | modules/autenticacao/module.py:30-35 | the bytes of a well-formed text are exactly what `_decode_b64url` returns |
| Cart.Remove | classes/Carrinho.php:54-58 | keeps exactly the lines with another id |
| Cart.Clear | classes/Carrinho.php:60-64 | keeps exactly the lines of other responsáveis |
| Cart.CountItemsAppend | classes/Carrinho.php:88 | the quantity sum over two parts of the table adds up |
| Cart.CountItemsNone | classes/Carrinho.php:88-95 | a responsável without lines counts 0 (the empty SUM read as 0) |
| Cart.CountItemsSetQuantity | classes/Carrinho.php:50 | replacing one line's quantity changes the count by the difference (also line 88) |
| Cart.AddRaisesCount | classes/Carrinho.php:12-40 | `adicionar` raises the responsável's item count by exactly q, whether it merges or inserts (also lines 85-96) |
| Cart.ClearEmpties | classes/Carrinho.php:60-64 | after `limpar` the responsável counts 0 and every other responsável's line remains (also lines 85-96) |
| Cart.UpdateSetsOrRemoves | classes/Carrinho.php:42-52 | q <= 0 removes the line, a positive q sets it to exactly q, other lines remain |
| Cart.AddKeepsTriplesUnique | classes/Carrinho.php:18-39 | with a successful lookup each (responsável, produto, variação) keeps at most one line |
| Cart.ShortfallsMeaning | classes/Carrinho.php:119-127 | one entry per line asking for more than its stock, carrying requested and available; empty iff every line fits |
| Cart.Listing | classes/Carrinho.php:66-83 | a failed query lists nothing; otherwise exactly the responsável's lines whose product, variation and supplier rows the INNER JOINs find, each with its variation's stock |
| Cart.CartTable.constructor | classes/Carrinho.php:7-10 | an empty table |
| Cart.CartTable.Adicionar | classes/Carrinho.php:12-40 | merges into the existing line or inserts a new one when the query succeeds; returns the query result |
| Cart.CartTable.Atualizar | classes/Carrinho.php:42-52 | removes the line for q <= 0, otherwise sets its quantity; returns the query result |
| Cart.CartTable.Remover | classes/Carrinho.php:54-58 | deletes the line with the id |
| Cart.CartTable.Limpar | classes/Carrinho.php:60-64 | deletes the responsável's lines |
| Cart.CartTable.ContarItens | classes/Carrinho.php:85-96 | the sum of the responsável's quantities, 0 when the query fails |
| Cart.CartTable.ValidarEstoque | classes/Carrinho.php:115-130 | the loop collects exactly the shortfalls of `listar`'s rows, in listing order; nothing when the listing query fails |
| Cart.AddKeepsIds | classes/Carrinho.php:35-36 | `adicionar` keeps ids unique and below the id sequence |
| Cart.RemoveKeepsIds | classes/Carrinho.php:56 | deleting a line keeps ids unique |
| Cart.ClearKeepsIds | classes/Carrinho.php:62 | deleting a responsável's lines keeps ids unique |
| Dependencies.BlockMessages | core/services.py:228-238 | at most one message per check |
| Dependencies.BlockMessagesMeaning | core/services.py:230-236 | a message "Possui ... vinculados." appears exactly for each check whose count row exists and is positive; failed queries contribute nothing |
| Dependencies.BlockMessagesCount | core/services.py:230-236 | the number of messages equals the number of blocking checks |
| Dependencies.BlockMessagesAppend | core/services.py:230-236 | one more check adds its message at the end when, and only when, it blocks |
| Dependencies.VerifyDependencies | core/services.py:217-238 | the loop returns exactly the block messages, in the order of the checks |
| EnvConfig.TrimLeft | config.php:22-26 | the left half of `trim`: drops exactly the leading characters in the set, leaving a suffix that starts outside it |
| EnvConfig.TrimRight | config.php:22-26 | the right half of `trim`: drops exactly the trailing characters in the set, leaving a prefix that ends outside it |
| EnvConfig.Trim | config.php:22-26 | no character of the set is left at either end; a text with none of them is unchanged |
| EnvConfig.SplitOnce | config.php:21 | `explode('=', $linha, 2)`: the key holds no `=`; without `=` the line is all key and there is no value; otherwise key, `=` and value make up the line |
| EnvConfig.SplitOnceAtKey | config.php:21 | splitting `k=v` with `=`-free k gives back k and v, however many `=` v holds |
| EnvConfig.ParseSplitsAtFirstEquals | config.php:16-26 | a non-comment `k=v` line defines the trimmed k with v trimmed of blanks and then of quotes |
| EnvConfig.DefinedFirst | config.php:29-31 | a constant defined before loading keeps its value; otherwise a key is defined iff some entry names it, with its first entry's value |
| EnvConfig.AssignedUntouched | config.php:34-35 | a key the file never names keeps its earlier `$_ENV`/environment value, or stays unset |
| EnvConfig.AssignedLast | config.php:34-35 | a key the file names holds its last entry's value in `$_ENV` and the environment |
| EnvConfig.DuplicateKeyDisagrees | config.php:29-35 | a key defined twice with different values: `env()` returns the first while `$_ENV` and `getenv` hold the second (also lines 43-54) |
| EnvConfig.EnvAfterLoad | config.php:29-54 | after loading, `env()` of a constant defined before keeps its value; a key the file sets (and nobody defined) reads as its first entry whatever the default; any other key reads as before loading |
| EnvConfig.EntriesStep | config.php:14-21 | the entries of one more line are the earlier entries extended by that line's entry, if any |
| EnvConfig.StoreStep | config.php:29-35 | one more entry defines its key only if undefined, and always overwrites `$_ENV` and the environment |
| EnvConfig.Environment.constructor | config.php:8 | the process starts from the given constants, `$_ENV` and environment |
| EnvConfig.Environment.CarregarEnv | config.php:8-37 | a missing file stops with nothing changed; otherwise the loop leaves the constants as `Defined` and `$_ENV` and the environment as `Assigned` over the file's entries |
| EnvConfig.Environment.Env | config.php:43-54 | `env()` reads the current constants and environment; after `CarregarEnv` that value is the one `EnvConfig.EnvAfterLoad` gives |
| Gestores.Collect | modules/gestores.py:94-98 | the name stripped, the email stripped and lowercased, every optional field stripped and None when empty |
| Gestores.MayManage | modules/gestores.py:36-43 | false without a user or a school; true for an administrator; for a school account true iff it owns the school; false for every other tipo |
| Gestores.StubDecidesAsSchool | modules/gestores.py:149-152 | the stub rebuilt from the manager's join row gets the same answer as the school itself (also lines 211-214) |
| Gestores.CheckForm | modules/gestores.py:100-110 | name missing, phone invalid (only when given), CPF invalid (only when given), each exactly when its condition holds and in that order; otherwise the collected fields are accepted |
| Gestores.EmptyOptionalsAccepted | modules/gestores.py:95-110 | a form with only a name is accepted and stores every optional field as None |
| Gestores.FindSchool | modules/gestores.py:25-33 | the school with the id, if any; None iff none has it |
| Gestores.FindGestor | modules/gestores.py:135-147 | the manager row with the id, if any; None iff none has it |
| Gestores.CreateCheck | modules/gestores.py:80-110 | login required iff no session; denied iff the school is missing or not manageable; done iff manageable and the form is accepted; otherwise the form's refusal |
| Gestores.ChangeCheck | modules/gestores.py:129-173 | login required iff no session; not found iff no manager row (or no school row for it); otherwise the permission on its school, then (for an edit) the form, an Invalid outcome carrying the refusing `CheckForm` verdict of that form (also lines 193-214) |
| Gestores.Drop | modules/gestores.py:216 | keeps exactly the rows with another id |
| Gestores.DropSchool | core/repositories.py:144-148 | keeps exactly the rows of other schools |
| Gestores.FilterKeepsIds | modules/gestores.py:216 | deleting rows keeps ids unique |
| Gestores.GestorTable.constructor | core/repositories.py:128-131 | an empty table |
| Gestores.GestorTable.Insert | modules/escolas/module.py:443 | appends one row with the next id |
| Gestores.GestorTable.DeleteSchool | core/repositories.py:144-148 | the table becomes `DropSchool` of the old table |
| Gestores.GestorTable.Cadastrar | modules/gestores.py:80-121 | returns `CreateCheck`; only a Done outcome (and an INSERT that takes effect) appends the collected row |
| Gestores.GestorTable.Editar | modules/gestores.py:129-185 | returns `ChangeCheck`; only Done rewrites the row with the collected fields |
| Gestores.GestorTable.Excluir | modules/gestores.py:193-218 | returns `ChangeCheck` without a form; only Done deletes the row |
| Gestores.ChangesNeedPermission | modules/gestores.py:145-152 | an edit or delete that goes through has a session and an existing manager, and a school account doing it owns the manager's school (also lines 207-214) |
| AuditLog.Get | modules/usuarios/module.py:488-489 | `dict.get`: a key absent from the object gives None |
| AuditLog.ParseJson | modules/usuarios/module.py:446-452 | a falsy text, or one the parser rejects, gives `{}`; otherwise the parsed object |
| AuditLog.ScanMembers | modules/usuarios/module.py:485-501 | walking a key list yields exactly the entries of its keys |
| AuditLog.ScanSorted | modules/usuarios/module.py:485 | walking strictly sorted keys yields the fields in strictly increasing order (also lines 493, 498) |
| AuditLog.SortedAppend | modules/usuarios/module.py:485 | appending a key above the last keeps the list strictly sorted |
| AuditLog.SortedBefore | modules/usuarios/module.py:485 | in a strictly sorted list every earlier key is below every later one |
| AuditLog.UpdateChanges | modules/usuarios/module.py:483-491 | for UPDATE: in increasing field order, exactly the visible keys of either snapshot whose values differ, with both values |
| AuditLog.InsertChanges | modules/usuarios/module.py:492-496 | for INSERT: each visible key of the new snapshot once, sorted, with `antes = None` |
| AuditLog.DeleteChanges | modules/usuarios/module.py:497-501 | for DELETE: each visible key of the old snapshot once, sorted, with `depois = None` |
| AuditLog.OtherActionsAndHiddenKeys | modules/usuarios/module.py:454-459 | any other `acao` has no changes, and `data_atualizacao`, `data_cadastro`, `id` and `*_id` never appear (also lines 478, 503) |
| AuditLog.ComputeChanges | modules/usuarios/module.py:478-503 | the loops build exactly the diff `Changes` specifies |
| AuditLog.PrepareLogs | modules/usuarios/module.py:441-505 | every row is prepared in place; the list keeps its length and order |
| Orders.ApplyTakesDemand | classes/Pedido.php:37-60 | a successful item loop takes from each variation exactly the total its items ask, and touches no other variation |
| Orders.ApplyKeepsNonNegative | classes/Pedido.php:54-59 | stock never goes negative through `criar` |
| Orders.OrderWithinStock | classes/Pedido.php:54-59 | a created order never asks a variation for more than it had |
| Orders.ApplyPrefixFails | classes/Pedido.php:49-58 | once a prefix of the items fails, the whole order fails (also lines 69-71) |
| Orders.ZeroQuantityAborts | classes/Pedido.php:54-58 | an item of quantity 0 changes no row, so `affected_rows == 0` aborts the whole order |
| Orders.SharedVariationSequential | classes/Pedido.php:37-60 | two items on one variation succeed iff the second fits into what the first left |
| Orders.SetStatusWritesAnything | classes/Pedido.php:149-155 | `atualizarStatus` writes any status string, with no transition check, and changes no other order |
| Orders.OrderStore.constructor | classes/Pedido.php:7-10 | empty order and item tables over the given stock and cart |
| Orders.OrderStore.Criar | classes/Pedido.php:12-73 | all or nothing: either the order (status `pendente`), every item and every stock decrement are stored, the cart is cleared (its unchecked result permitting) and the id returned, or only the id sequence advances and false is returned |
| Orders.OrderStore.AtualizarStatus | classes/Pedido.php:149-155 | the UPDATE writes the status when it succeeds; items and stock are unchanged |
| OrderStatus.EveryStatusLabelled | Model/pedidos-gerenciar.php:63-79 | both tables cover the same six statuses, and every successor has a label |
| OrderStatus.OnlyPickupRelabelled | Model/pedidos-gerenciar.php:63-70 | only `Disponível para Retirar` is shown under another name, `Pronto para Retirada` |
| OrderStatus.TerminalStatuses | Model/pedidos-gerenciar.php:72-79 | exactly `Entregue` and `Cancelado` have no successors |
| OrderStatus.CancelBeforePickup | Model/pedidos-gerenciar.php:73-76 | `Cancelado` follows exactly Pendente, Aprovado and Em Produção |
| OrderStatus.ForwardChain | Model/pedidos-gerenciar.php:73-76 | the forward chain Pendente, Aprovado, Em Produção, Disponível para Retirar, Entregue |
| OrderStatus.EdgeClimbs | Model/pedidos-gerenciar.php:72-79 | every transition climbs the position along the flow |
| OrderStatus.PathClimbs | Model/pedidos-gerenciar.php:72-79 | every walk of at least one step ends higher than it starts |
| OrderStatus.Acyclic | Model/pedidos-gerenciar.php:72-79 | the transition graph is acyclic: no walk returns to its start |
| OrderStatus.CreatedStatusUnlisted | classes/Pedido.php:27-28 | the lower-case `pendente` that `criar` writes is a key of neither table |
| OrderStatus.GateIgnoresTable | Model/pedidos-gerenciar.php:8-41 | only a posted update from a logged-in `Fornecedor` session changes the order (a session without `logado` is redirected), and it writes any status, even `Pendente` after `Entregue` |
| Pagination.MakePager | core/pagination.py:24-27 | page and page size clamped to at least 1, total to at least 0; `pages` is total / per_page rounded up, 0 iff total is 0 |
| Pagination.PrevNum | core/pagination.py:29-42 | a previous page exists iff page > 1, and it is page - 1 |
| Pagination.NextNum | core/pagination.py:34-47 | a next page exists iff page < pages, and it is page + 1 |
| Pagination.Offset | core/pagination.py:49-52 | `(page-1)*per_page`, never negative |
| Pagination.PageBeyondLast | core/pagination.py:24-57 | the page is not clamped to `pages`: past the last page there is no next page and the offset is at least the total |
| Pagination.PageWithinRange | core/pagination.py:49-57 | on an existing page the offset is below the total |
| Pagination.EmitKeepsIncreasing | core/pagination.py:77-80 | one more step keeps the page numbers strictly increasing |
| Pagination.EmitKeepsGaps | core/pagination.py:77-80 | one more step keeps every None between two numbers that do not follow each other, or before a first number above 1 |
| Pagination.EmitKeepsNoSilentGap | core/pagination.py:77-80 | one more step keeps consecutive numbers without a None between them adjacent |
| Pagination.EmitKeepsShape | core/pagination.py:71-80 | one more step keeps every number within 1 and the last one shown |
| Pagination.IterPages | core/pagination.py:59-80 | yields exactly the pages in 1..pages near the left edge, around the current page or near the right edge, strictly increasing, with a None exactly before each number that does not follow the previous one and never a trailing None |
| Pagination.PaginateQuery | core/pagination.py:96-129 | the query gains `LIMIT %s OFFSET %s`, the parameters gain the page size and the offset, and the pager is built from the counted total |
| Pagination.PaginateQueryWindow | core/pagination.py:123-127 | the appended parameters select the rows of the current page of the counted total |
| Pagination.Clause | core/pagination.py:153-181 | an entry contributes nothing exactly when its value is None or `''` or its key is a search key |
| Pagination.ClauseShape | core/pagination.py:153-181 | `_min`, `_max` and `_like` keys give `>=`, `<=` and `ILIKE '%v%'` on the mapped base field; any other key gives `=` on its mapped field |
| Pagination.Clauses | core/pagination.py:153-181 | at most one clause per entry, each with a non-empty condition |
| Pagination.ClausesEmpty | core/pagination.py:153-181 | no clause remains iff every entry is skipped |
| Pagination.Texts | core/pagination.py:183 | the condition of each clause, in order |
| Pagination.ParamsOf | core/pagination.py:169-181 | the parameter of each clause, in order |
| Pagination.BuildWhere | core/pagination.py:136-184 | the loop returns the conditions joined by `AND` and their parameters; the clause is `""` iff every entry is skipped |
| Pagination.BuildWhereStep | core/pagination.py:153-181 | one loop step adds the entry's condition and parameter, if any |
| Pagination.ProjectionsAppend | core/pagination.py:168-181 | conditions and parameters extend together |
| Pagination.ClausesAppend | core/pagination.py:153-181 | the clauses of one more entry extend the earlier ones |
| Schools.FindLink | modules/escolas/module.py:253-256 | the first row of the (escola, fornecedor) pair; None iff the pair has no row |
| Schools.SetActiveKeepsKeys | modules/escolas/module.py:258-261 | flipping a flag keeps ids and (escola, fornecedor) pairs unique and under the id sequence |
| Schools.HomologateActivates | modules/escolas/module.py:253-276 | an existing pair the SELECT finds is set active with no new row when the UPDATE goes through (unchanged otherwise); a pair without a row, or hidden by a failed SELECT, is appended active when the INSERT succeeds (unchanged otherwise); no other row is lost |
| Schools.HomologateKeepsPairsUnique | modules/escolas/module.py:253-272 | when the SELECT answers, homologation never gives a pair a second row |
| Schools.FailedSelectDuplicatesPair | modules/escolas/module.py:253-272 | a failed `existe` SELECT followed by a successful INSERT gives an existing pair a second row |
| Schools.InsertNotCommitted | modules/escolas/module.py:267-276 | as written, a new pair whose INSERT returned its id (and is reported as homologated) is left without a row and not active; the committed version makes it active |
| Schools.ToggleFindsSameRow | modules/escolas/module.py:290-302 | flipping keeps the pair's columns, so the same row is found again |
| Schools.ToggleTwice | modules/escolas/module.py:290-302 | two toggles restore the table; a missing pair changes nothing |
| Schools.ToggleFlips | modules/escolas/module.py:298-302 | a toggle negates the pair's `ativo` and changes nothing else |
| Schools.Get | modules/escolas/module.py:430-440 | a non-empty answer is a value submitted under that key |
| Schools.GetFirst | modules/escolas/module.py:430-440 | `form.get` gives the value at the key's first position, and `''` when the key is absent |
| Schools.Before | modules/escolas/module.py:424 | `split(c, 1)[0]`: the longest prefix without c, stopping at the first c |
| Schools.IndexOf | modules/escolas/module.py:424 | the index of a `gestores[` key is the text after the prefix up to the first `]` (or the end), and contains no `]` |
| Schools.IndicesMeaning | modules/escolas/module.py:420-427 | an index is collected iff some submitted key with the prefix yields it |
| Schools.Entry | modules/escolas/module.py:430-441 | the row for an index is read as the manager form is read: name stripped, email stripped and lowercased, telefone, cpf and tipo_gestor stripped, each optional field None when empty |
| Schools.RowsAppend | modules/escolas/module.py:429-443 | processing one more index appends its row with the next id |
| Schools.DistinctAppend | modules/escolas/module.py:429 | a new index keeps the processed indices distinct |
| Schools.CollectIndices | modules/escolas/module.py:420-427 | the first loop collects exactly the indices of the prefixed keys |
| Schools.ProcessGestores | modules/escolas/module.py:418-443 | each collected index with a non-blank name is inserted once, in some order, as its own row with consecutive ids; no other row is added |
| Schools.InsertKept | modules/escolas/module.py:429-443 | the second loop, over the set in an unspecified order, inserts exactly the kept indices, each once |
| Schools.EditCheck | modules/escolas/module.py:316-368 | access denied, not found, not the owner, bad phone, bad CEP and missing fields each happen exactly when their condition holds, in that order; on success `ativo` is set iff the editor is an administrator, to whether the box says `on` |
| Schools.ReplacementMeaning | modules/escolas/module.py:375-376 | after the replacement the school's managers are exactly the new rows, and other schools' managers are untouched |
| Schools.DeleteCheck | modules/escolas/module.py:388-408 | denied iff not an administrator; not found iff the school is missing; blocked with the messages iff some check counts a dependent row; otherwise removed |
| Schools.DeleteNeedsNoDependents | modules/escolas/module.py:399-410 | a school is removed iff an administrator asks, it exists, and no check counts a dependent row |
| Schools.DropSchoolRow | core/services.py:198-200 | keeps exactly the schools with another id |
| Schools.SchoolRegistry.constructor | modules/escolas/module.py:25 | the given schools and manager table, and no homologation rows |
| Schools.SchoolRegistry.Homologar | modules/escolas/module.py:221-279 | denied, school not found and no supplier each exactly when their condition holds and change nothing; otherwise reactivated iff the SELECT finds the pair (active afterwards when the UPDATE goes through), inserted iff it does not and the INSERT succeeds (active afterwards); pairs stay unique when the SELECT answers. The INSERT is taken as committed; the handler as written never commits it (`Schools.HomologateAsWritten`, `Schools.InsertNotCommitted`, "## Findings") |
| Schools.SchoolRegistry.AlterarStatus | modules/escolas/module.py:283-306 | denied iff not an administrator; not found iff the SELECT finds no row for the pair; otherwise its `ativo` is flipped when the UPDATE goes through and the new value reported |
| Schools.SchoolRegistry.Editar | modules/escolas/module.py:314-378 | returns `EditCheck`; on success the form's `gestores[...]` rows are appended after the school's old managers are deleted (when that DELETE goes through; they stay otherwise); a refusal changes nothing |
| Schools.SchoolRegistry.Excluir | modules/escolas/module.py:386-411 | returns `DeleteCheck` over the dependency counts; only a Remove outcome whose DELETE goes through deletes the school row |
| SessionGate.VerifySession | core/services.py:20-38 | an identity iff all five keys are present and `logged_in` is truthy, and then exactly `{id, nome, email, tipo}` from the session |
| SessionGate.VerifyPermission | core/services.py:41-58 | the verified identity iff its tipo is in the allowed list; never an identity with a tipo outside it |
| SessionGate.PermissionMonotone | core/services.py:51-58 | widening the allowed list never revokes access |
| SessionGate.LogInVerifies | modules/autenticacao/module.py:289-293 | a session written by a login verifies, yielding exactly the identity written |
| Validation.ValidEmailIff | core/services.py:65-70 | an email is accepted iff it contains `.`, exactly one `@`, and that `@` is neither first nor last |
| Validation.CpfValidatorsDiffer | core/services.py:73-80 | the optional-CPF validator and the one in `utils.py` disagree exactly on the empty string |
| Validation.CepAcceptsHyphenated | core/services.py:93-98 | a CEP written `ddddd-ddd` is accepted: non-digits are ignored |
| Validation.PhoneAcceptsPunctuated | core/services.py:101-106 | a phone written `(dd) ddddd-dddd` is accepted: only its 11 digits count |
| Validation.FormatCpfDigits | utils.py:428-441 | formatting keeps the CPF's digits; 11 digits give `ddd.ddd.ddd-dd` |
| Validation.FormatCpfIdempotent | utils.py:428-441 | formatting twice is formatting once, and does not change validity |
| Validation.FormatCnpjDigits | utils.py:444-457 | formatting keeps the CNPJ's digits; 14 digits give the 18-character `dd.ddd.ddd/dddd-dd` |
| Validation.FormatCnpjIdempotent | utils.py:444-457 | formatting twice is formatting once, and does not change validity |
| Validation.DigitCode | utils.py:113-125 | `gerar_codigo_acesso(k)`: exactly k characters, each the decimal digit drawn for its place |
| Strings.Digits | core/services.py:77 | `''.join(filter(str.isdigit, s))`: only digits, no longer than the input |
| Strings.DigitsAppend | core/services.py:77 | filtering digits distributes over concatenation |
| Strings.DigitsOfDigits | core/services.py:77 | filtering an all-digit text returns it unchanged |
| Strings.Count | core/services.py:69 | the number of occurrences of a character; 0 iff it does not occur |
| Strings.Split | core/services.py:69-70 | `split` on one character gives one more part than separators, none containing it |
| Strings.SplitNone | core/services.py:69 | with no separator `split` returns the whole text |
| Strings.SplitOne | core/services.py:69 | with exactly one separator `split` returns the text on each side |
| Strings.Join | core/pagination.py:183 | `sep.join(parts)`: empty for no parts, the part itself for one |
| Strings.JoinEmpty | core/pagination.py:183 | joining non-empty parts is empty iff there are none |
| Strings.SortedUnique | modules/usuarios/module.py:484-485 | `sorted(set(ks))`: strictly increasing, holding exactly the keys of ks |
| Strings.InsertUnique | modules/usuarios/module.py:484-485 | inserting into a strictly sorted list keeps it strictly sorted and adds exactly the key |
| Strings.LessEqTotal | modules/usuarios/module.py:484-485 | the string order is total |
| Strings.LessEqAntisymmetric | modules/usuarios/module.py:484-485 | the string order is antisymmetric |
| Strings.LessEqTransitive | modules/usuarios/module.py:484-485 | the string order is transitive |
| Tables.Newest | classes/CodigoAcesso.php:66-72 | `ORDER BY ... DESC LIMIT 1`: a matching row with the largest key (the later one on a tie); None iff no row matches |
| Tables.First | modules/escolas/module.py:253-256 | `fetchone` over an unordered query: the first matching row; None iff none matches |
| TokenAuth.FindSession | modules/autenticacao.py:263-270 | `fetchone` on the session query: the first active row with the token whose user exists; None iff there is none |
| TokenAuth.SessionVerdict | modules/autenticacao.py:245-293 | no `usuario_id` or a falsy token: no identity, session untouched; an identity iff a live row exists, has not expired and its user is active; any other refusal clears the session |
| TokenAuth.PermissionVerdict | modules/autenticacao.py:300-322 | an identity iff the session verifies and its tipo is allowed; the session ends as the session check left it |
| TokenAuth.PermissionAdmitsOnlyAllowed | modules/autenticacao.py:318-319 | an admitted identity always has a string tipo from the allowed list |
| TokenAuth.LoggedOutTokenRejected | modules/autenticacao.py:218-232 | after logout deactivates a token, a session holding it never verifies again, and is cleared when checked |
| TokenAuth.DeactivateIsScoped | modules/autenticacao.py:228 | deactivating one token leaves the verdict on every session holding another token unchanged |
| TokenAuth.SameLiveRowsSameVerdict | modules/autenticacao.py:245-293 | two tables whose live rows for the session's token coincide give the same verdict |
| TokenAuth.NewSessionRow | modules/autenticacao.py:190-196 | the inserted row is active, belongs to the user, carries the token and expires the configured `SESSAO_DURACAO_DIAS` days later |
| TokenAuth.FreshSessionVerifies | modules/autenticacao.py:190-204 | a fresh token whose row was stored verifies as its active user until the row expires |
| TokenAuth.UnstoredSessionRejected | modules/autenticacao.py:192-204 | the INSERT's result is not checked: when the row was not stored, the login's token never verifies and the session is cleared on the first check |
| TokenAuth.TokenAuthServer.constructor | modules/autenticacao.py:15 | the given settings, no codes, no session rows, an empty Flask session; `DEBUG` as configured |
| TokenAuth.TokenAuthServer.RequestCode | modules/autenticacao.py:29-118 | refusals store nothing; a failed INSERT reports it; otherwise the code is appended and the redirect is produced only when the send succeeded |
| TokenAuth.TokenAuthServer.StoreCode | modules/autenticacao.py:88-92 | the new code row is appended under the next id; sessions are untouched |
| TokenAuth.TokenAuthServer.ValidateCode | modules/autenticacao.py:126-210 | a rejected code changes nothing; an accepted one is marked used (when that UPDATE goes through), a session row with the token and the configured lifetime is appended (when the INSERT succeeds), and the session gets the identity and the token either way |
| TokenAuth.TokenAuthServer.OpenSession | modules/autenticacao.py:193-204 | a session row with the token is appended when stored, and the session gets the identity and the token |
| TokenAuth.TokenAuthServer.Logout | modules/autenticacao.py:218-232 | a truthy token is deactivated in `sessoes` when that UPDATE goes through; the session is cleared either way |
| TokenAuth.TokenAuthServer.CheckSession | modules/autenticacao.py:245-293 | the identity and the session afterwards are those of the session verdict; the tables are unchanged |
| TokenAuth.TokenAuthServer.CheckPermission | modules/autenticacao.py:300-322 | the identity and the session afterwards are those of the permission verdict; the tables are unchanged |
| Users.CountOtherAdmins | modules/usuarios.py:298-300 | the count is positive iff some other account is an active administrator |
| Users.FailedCountDiffers | modules/usuarios/module.py:242-246 | a failed count query blocks in the older module and lets the change through in the refactored one; a successful count is read alike |
| Users.RegisterCheck | modules/usuarios.py:90-169 | each refusal iff its guard is the first that fails (non-admin, missing field, bad phone, bad email, unknown tipo, taken (email, tipo)); otherwise an active account with the stripped fields and the lowercased email |
| Users.RegisterKeepsInvariants | modules/usuarios.py:133-145 | a registration keeps ids and (email, tipo) pairs unique and adds an active account of one of the four tipos |
| Users.ViewCheck | modules/usuarios.py:177-224 | login, forbidden and shown each iff their guard decides; a non-admin is only ever shown their own row |
| Users.EditCheck | modules/usuarios.py:232-339 | login, forbidden, not found, missing fields, bad phone, bad email, duplicate (email, tipo) (older module only) and last active admin each happen exactly when their guard is the first that fails; a saved row has a name, a valid email and phone, keeps tipo and ativo for a non-admin, and passes the last-admin guard |
| Users.EditKeepsActiveAdmin | modules/usuarios.py:296-302 | a saved edit keeps an active administrator, except by demoting the last one, which the guard does not look at |
| Users.DemotionLeavesNoAdmin | modules/usuarios.py:296-302 | the demotion is reachable: the only active admin changing their own tipo is saved and no active admin remains |
| Users.OlderEditKeepsUnique | modules/usuarios.py:288-294 | the older edit keeps ids and (email, tipo) pairs unique |
| Users.RefactoredEditMayDuplicate | modules/usuarios/module.py:194-254 | the refactored edit has no uniqueness check: a saved edit can leave two accounts with the same (email, tipo) |
| Users.CollectReasons | modules/usuarios/module.py:390-438 | the checks run on a found user give exactly the reasons list of the delete verdict |
| Users.FlagDependents | modules/usuarios/module.py:405-414 | the loop over the dependent tables collects, in order, the reason of each table whose count blocks |
| Users.FlaggedMeaning | modules/usuarios/module.py:405-414 | exactly the reasons of the blocking counts are reported, and none iff no count blocks |
| Users.DeleteCheck | modules/usuarios.py:347-449 | denied iff the actor is not an admin; self-delete and not-found iff their guard decides; removed iff the reasons list is empty, blocked with exactly those reasons otherwise |
| Users.Without | modules/usuarios.py:436-437 | exactly the rows whose id differs remain |
| Users.DeleteKeepsActiveAdmin | modules/usuarios.py:379-385 | a deletion that goes through never removes the last active administrator, and nobody deletes themself |
| Users.FailedCountDeletesAdmin | modules/usuarios/module.py:395-399 | with a failed count the older module refuses to delete an admin while the refactored one deletes |
| Users.WithoutKeepsIds | modules/usuarios.py:436-437 | deleting rows keeps ids unique |
| Users.UserTable.constructor | modules/usuarios.py:143-145 | the table starts valid, with the given rows and id sequence |
| Users.UserTable.Register | modules/usuarios/module.py:102-149 | the refactored `cadastrar`, whose insert `Database.inserir` commits: the outcome is the registration verdict; the row is appended and the sequence advances exactly when it is saved; the table stays valid |
| Users.RegisterNotCommitted | modules/usuarios.py:142-149 | in the older module an accepted registration stores nothing: the new account is absent and the same form is accepted again, while a committed insert makes it a duplicate |
| Users.UserTable.Edit | modules/usuarios.py:232-339 | the outcome is the edit verdict; the row is replaced exactly when it is saved; the table stays valid |
| Users.UserTable.Delete | modules/usuarios/module.py:390-438 | the outcome is the delete verdict, with the dependency counts run in order; the row goes exactly when it is removed; the table stays valid |
| Homologation.Create | classes/Homologacao.php:12-21 | the pair has a row afterwards and it verifies; no other pair's row changes |
| Homologation.Remove | classes/Homologacao.php:23-29 | the set of rows is unchanged, the pair no longer verifies, no other pair's row changes |
| Homologation.CreateIdempotent | classes/Homologacao.php:16-18 | creating twice equals creating once; removing a pair without a row changes nothing |
| Homologation.CreateRemoveVerify | classes/Homologacao.php:12-69 | create after remove verifies, remove after create does not, and neither touches another pair's answer |
| Homologation.Available | classes/Homologacao.php:44-58 | exactly the active suppliers without an active link to the school |
| Homologation.Homologated | classes/Homologacao.php:31-42 | exactly the suppliers with a row for the school, active or not, each with its row's flag |
| Homologation.AvailableDisjoint | classes/Homologacao.php:44-69 | an active supplier is either verified for the school or available to it, never both |
| Homologation.RemovedStillListed | classes/Homologacao.php:23-58 | a removed link still lists its supplier as inactive and makes an active supplier available again; a created one is not available |
| Homologation.HomologationTable.constructor | classes/Homologacao.php:7-10 | the object wraps the given table |
| Homologation.HomologationTable.Criar | classes/Homologacao.php:12-21 | returns the query's result; the pair is created exactly when it succeeded |
| Homologation.HomologationTable.Remover | classes/Homologacao.php:23-29 | returns the query's result; the pair is deactivated exactly when it succeeded |
| Homologation.HomologationTable.VerificarHomologacao | classes/Homologacao.php:60-69 | true iff the query succeeds and the pair has an active row |
| Homologation.HomologationTable.ListarFornecedoresDisponiveis | classes/Homologacao.php:44-58 | a successful query lists exactly the available suppliers; a failed one lists nothing |
| Homologation.HomologationTable.ListarFornecedoresHomologados | classes/Homologacao.php:31-42 | a successful query lists exactly the linked suppliers with their flags; a failed one lists nothing |

## Left out

- Cryptography: WebAuthn option generation and response verification are a parameter giving the verifier's verdict and new sign count; `gerar_token_sessao`, challenge bytes and code digits are parameters.
- Email delivery (SMTP, MailerSend) is a `sent` parameter; it happens at most once per request.
- Database plumbing: the success of every modelled write is a parameter (`ok`, `stored`, `retired`, `marked`, `deleted`, `dropped`, `inserted`, `counted`, `deactivated`, `cleared`, `updateOk`, `insertOk`), whether or not the code checks it; so is the success of the reads whose failure the model follows (`lookupOk`, `selectOk`, `queryOk`, `countOk`, the count rows). Every other SELECT is taken to answer. Connection handling, `executar_query` and the repositories are not part of this model.
- The audit rows `LogService.registrar` writes after each change are not modelled.
- AccessCodes.NewAccessCode: `CODIGO_ACESSO_EXPIRACAO` is taken in whole minutes; a value that is not a multiple of 60 makes PHP pass a fractional number of minutes to `strtotime`, which the model does not follow.
- Tables.Newest: SQL leaves the order of rows with equal `ORDER BY` keys unspecified; the model settles a tie on the later row.
- Concurrency: requests are sequential; the lookup-then-delete windows around codes and challenges are not modelled.
- Floating point: prices, item subtotals, order totals, `calcularTotal` and the 15% commission.
- `ORDER BY nome` of the listings: lists keep table order; membership, not order, is stated.
- Timestamps written by the database (`data_homologacao`, `data_atualizacao`, `criado_em` of rows other than codes) are not modelled.
- Orders.OrderStore.Criar: like MySQL, a rolled-back order still consumes its AUTO_INCREMENT id; the ids of rolled-back item rows are not modelled.
- PHP `(int)` casts of request values: ids are already integers.
- Unicode: `strip`, `lower` and `isdigit` are modelled on ASCII characters; PHP `trim` keeps its own set (space, tab, LF, CR, NUL, vertical tab).
- `define`/`putenv` edge cases (an empty key, a key already defined by PHP itself) are not modelled; a line without `=` gets the value `""`.
- The log sanitiser's regular expression and JSON parsing are parameters of the audit-log diff.
- The school edit's UPDATE of the school and user columns is not modelled beyond its guards; the manager replacement is.
- Insert failures of single managers inside `_processar_gestores` are not modelled; every parsed manager is inserted.
- `_processar_gestores` validates neither phone nor CPF; the model follows it.
- UI, templates, page controllers, debug printing and `webauthn_diagnostico`.
- The duplicated CRUD handlers of other modules repeat the modelled guards and are not part of this model.
- The older copy of `_preparar_detalhes_logs` (modules/usuarios.py:543-613) has the same meaning as the refactored one and is modelled once.

## Findings

| source | as written | input that shows it | evidently intended | confidence | as-written member | corrected member |
|---|---|---|---|---|---|---|
| modules/escolas/module.py:267-276 | the INSERT of a new homologation passes `fetchone=True` but not `commit=True`; `Database.executar` (core/database.py:84-115) commits only on request and then closes the connection, so the new row is rolled back while the handler flashes "Fornecedor homologado com sucesso!" | a POST from an administrator naming a supplier that has no row for the school, with the INSERT returning its id | the pair is stored active, as `Database.inserir` (core/database.py:133-135) does by committing its `RETURNING id` insert | not executed | Schools.HomologateAsWritten, Schools.InsertNotCommitted | Schools.Homologate, Schools.HomologateActivates |
| modules/usuarios.py:142-149 | the older `cadastrar` runs its `INSERT ... RETURNING id` through `executar_query` with `fetchone=True` but not `commit=True`; `executar_query` (utils.py:82-107) commits only on request and closes the connection in `finally`, so the account is rolled back while the handler logs the insert and flashes "Usuário cadastrado com sucesso!" | an administrator's POST with a name, a valid email, a known tipo and an (email, tipo) pair not yet taken | the account is stored, as the refactored `cadastrar` (modules/usuarios/module.py:144-147) does through `Database.inserir` | not executed | Users.RegisterAsWritten, Users.RegisterNotCommitted | Users.UserTable.Register, Users.RegisterKeepsInvariants |
