# Cuisine Courier, modelled in Dafny

Cuisine Courier is a Next.js recipe site backed by TheMealDB. This project models its logic as
pure Dafny functions and proves properties about them. The modelled logic is:

- **Route guard** (`Middleware`): the redirect decision made from the `session` cookie and the
  request path, and the path matcher that decides where the guard runs.
- **Auth endpoints** (`LoginRoute`, `SignupRoute`, `CheckRoute`, `LogoutRoute`): each handler
  is a function from its request data to a `Response`, meaning a status, a JSON body and the
  cookies it sets. Signup also returns the updated user table (`Users`). Password hashing and
  tokens are uninterpreted functions (`AuthUtils.Oracles`). Each database query that can
  throw has a boolean input that makes it throw.
- **Cookie names across routes** (`Sessions`): login writes a cookie named `session`, and the
  guard reads `session`. The check and logout endpoints use `auth-token`. The model keeps this
  mismatch as written, and lemmas show what follows from it. The token login issues is never
  read by the check endpoint. Logout never changes the guard's decision.
- **MealDB client** (`MealDb`): request URLs, the `|| []` and `?.[0]` fallbacks, and the
  de-duplication of random draws through a JavaScript `Map` cut to six (`DedupeAndLimit`).
  The latest-recipes route (`LatestRoute`) reuses that same function and projects each meal
  to a card.
- **Recipe dialog** (`RecipeModal`): the difficulty badge, the ingredient list built from the
  20 numbered slots, the YouTube id and embed address, and the numbered instruction steps.
- **Saved recipes** (`SavedPage`): the list update `removeFavorite` makes after the DELETE
  request.
- **Strings** (`Text`): ECMAScript `trim`, `startsWith` and `includes`, `split` on a literal
  separator, and `split(/\r\n|\n|\r/)`, each with its own lemmas.

The network is replaced by inputs. Each MealDB request becomes a `MealDb.Reply`: either a
rejection of `fetch` or `response.json()`, or the `meals` (or `categories`) field its response
carried. The service has no `try`, so a rejected request makes the service call reject, and
the model's service results say so with `None`. A browser's cookies are a
`map<string, string>`. `Http.Receive` applies a Set-Cookie to them following the expiry
rules of RFC 6265, section 5.3 (Max-Age first, then Expires); Domain and Path matching and
the end of a browsing session are not modelled.

## Model

| member | source | states |
|---|---|---|
| Middleware.Guard | src/middleware.ts:7-25 | Redirects to `/login` exactly when there is no `session` cookie and the path starts with `/dashboard`. Redirects to `/dashboard` exactly when there is a cookie and the path starts with `/login` or `/signup`. Everything else passes through. |
| Middleware.Route | src/middleware.ts:7-29 | The deployed guard. Paths the matcher does not admit always pass through. It redirects to `/login` exactly when there is no `session` cookie and the path is `/dashboard` or below it. It redirects to `/dashboard` exactly when there is a cookie and the path is `/login` or `/signup`. No other redirect happens. |
| Middleware.NoRedirectLoop | src/middleware.ts:12-24 | With the same cookies, the target of any redirect is let through, so the guard never redirects twice in a row. |
| Middleware.OnlyPresenceMatters | src/middleware.ts:8-17 | The decision depends only on whether a `session` cookie exists. Its value does not matter, so an empty or forged value counts as logged in. |
| Middleware.MatcherNarrowsPrefixes | src/middleware.ts:12-29 | On matched paths, the guard's prefix tests are the same as exact tests for `/login` and `/signup`, and the same as "the dashboard or below it" for `/dashboard`. |
| Middleware.PrefixWiderThanMatcher | src/middleware.ts:18-28 | On its own, the guard treats `/login/x` as a login page and `/dashboardx` as protected. The matcher keeps both paths away from it. |
| LoginRoute.SessionOptions | src/app/api/auth/login/route.ts:56-61 | The session cookie is httpOnly, SameSite Lax, path `/`, secure exactly in production, and has no Expires or Max-Age. |
| LoginRoute.PublicUser | src/app/api/auth/login/route.ts:47-53 | The user object in the body has exactly the keys `id`, `name`, `email`, holding that user's id, name and email, so the digest is never included. |
| LoginRoute.Post | src/app/api/auth/login/route.ts:11-71 | Answers 500 `Login failed` exactly when the body is unreadable or the query throws. Every other failure is the one 401 `Invalid credentials` response, with no cookie. Success needs accepted credentials and returns the matching user's public fields plus exactly one cookie, `session`, holding `generateToken` of that user's id. |
| LoginRoute.SucceedsIffAccepted | src/app/api/auth/login/route.ts:17-41 | When emails are unique, login succeeds exactly when a stored user has that email and the password verifies against that user's digest. |
| LoginRoute.RejectionsIndistinguishable | src/app/api/auth/login/route.ts:27-41 | An unknown email and a wrong password get the identical response. |
| Users.FindByEmail | src/app/api/auth/login/route.ts:17-25 | The row found has the requested email. The result is absent exactly when no row has that email. |
| Users.FindById | src/app/api/auth/check/route.ts:20-27 | The row found has the requested id. The result is absent exactly when no row has that id. |
| Users.FindUnique | src/app/api/auth/login/route.ts:17-25 | When emails and ids are unique, every row is the row found by its email and the row found by its id. |
| Users.Selected | src/app/api/auth/signup/route.ts:36-40 | The selected user object has exactly the keys `id`, `email`, `name`, holding that user's own id, email and name. |
| Users.CreateSpec | src/app/api/auth/signup/route.ts:30-41 | Inserting an unused email keeps emails and ids unique. The new row is found by its email and by its id, and every other lookup is unchanged. |
| SignupRoute.Post | src/app/api/auth/signup/route.ts:11-50 | Never sets a cookie. Answers 500 `Something went wrong` exactly when the body is unreadable, the lookup throws, or the email is free and the insert throws. Answers 400 `User already exists` exactly when the lookup succeeds and the email is taken. Answers 201 exactly when the email is free and neither query throws, and then appends one row whose password is `hashPassword(password)` and returns its selected fields. Any answer other than 201 leaves the table unchanged. |
| SignupRoute.PostKeepsStoreValid | src/app/api/auth/signup/route.ts:17-41 | Signup keeps emails unique. On success it adds exactly one row with the hashed password and keeps every existing row and every other lookup. |
| CheckRoute.FindAuthSegment | src/app/api/auth/check/route.ts:7-8 | Returns the first segment that starts with `auth-token=`: every earlier segment does not. Returns nothing exactly when no segment does. |
| CheckRoute.TokenOfSpec | src/app/api/auth/check/route.ts:9 | The value is the text after `auth-token=` up to the next `=` or the end. It never contains `=`. |
| CheckRoute.AuthToken | src/app/api/auth/check/route.ts:7-9 | A missing header gives no token. Any token found contains no `=`. |
| CheckRoute.Get | src/app/api/auth/check/route.ts:5-38 | Sets no cookie and answers only 200 or 401. A missing or empty token gives 401 `{user: null}`. The answer is `{authenticated: false}` exactly when a non-empty token verifies and the user query then throws. A 200 body is the selected fields of a stored user whose id a non-empty token verifies to. |
| CheckRoute.SucceedsIff | src/app/api/auth/check/route.ts:11-33 | When ids are unique, the check succeeds exactly when the query does not throw and a non-empty `auth-token` verifies to a stored user's id. |
| CheckRoute.AuthTokenSole | src/app/api/auth/check/route.ts:7-9 | A header holding only `auth-token=t`, with no `;` in `t`, gives `t`, or `t` cut at its first `=`. |
| CheckRoute.AuthTokenSkips | src/app/api/auth/check/route.ts:7-8 | A leading cookie with another name is skipped. |
| CheckRoute.AuthTokenFirstWins | src/app/api/auth/check/route.ts:8 | When `auth-token` appears twice, the first occurrence is used (its value has no `;`). |
| CheckRoute.SessionCookieNotRead | src/app/api/auth/check/route.ts:7-13 | A header that carries only a `session` cookie, whose value has no `;`, always gets 401 `{user: null}`. |
| CheckRoute.EmptyTokenRejected | src/app/api/auth/check/route.ts:11-13 | No header, or an empty `auth-token=`, gets 401 `{user: null}`. |
| LogoutRoute.Post | src/app/api/auth/logout/route.ts:8-21 | Always answers 200 `Logged out successfully`. It sets exactly one cookie: `auth-token` to the empty string, httpOnly, expiring at the epoch. It sets no other option: not secure, and no SameSite, Path or Max-Age. It never sets `session`. |
| LogoutRoute.PostClearsOnlyAuthToken | src/app/api/auth/logout/route.ts:15-18 | In a browser, the response removes `auth-token` and keeps every other cookie. A second logout changes nothing. |
| Http.ReceiveAllKeepsOthers | src/app/api/auth/logout/route.ts:15 | A cookie that a response does not name keeps its presence and value. |
| Sessions.LoginSetsSessionCookie | src/app/api/auth/login/route.ts:56-61 | A successful login sets one cookie, `session`, with neither Expires nor Max-Age, so no expiry by time removes it on receipt. |
| Sessions.LoggedInGuard | src/middleware.ts:12-24 | With a session cookie, the dashboard passes, and `/login` and `/signup` redirect to `/dashboard`. |
| Sessions.LoginOpensDashboard | src/app/api/auth/login/route.ts:44-63 | After a successful login, the browser reaches the dashboard and is turned away from the login and signup pages. |
| Sessions.LogoutKeepsGuardDecision | src/app/api/auth/logout/route.ts:15-18 | Logout leaves the `session` cookie alone, so on every path the guard decides exactly as it did before logout. |
| Sessions.SignupLeavesJar | src/app/api/auth/signup/route.ts:43 | Signup leaves the browser's cookies unchanged. |
| Sessions.LoginTokenUnreadByCheck | src/app/api/auth/check/route.ts:8 | The token login issues, sent back under the name login gave it, is always refused by the check endpoint. This holds for a token without `;`, as every JWT is. |
| Sessions.SignupThenLogin | src/app/api/auth/signup/route.ts:29-41 | Right after signup, logging in with the same email and password succeeds exactly when `verifyPassword` accepts the password against its own hash. |
| MealDb.UrlsCarryArgumentVerbatim | src/lib/services/mealdb.ts:16-54 | The argument is appended without encoding and can be read back. Different arguments give different URLs, and the endpoints never share a URL. |
| MealDb.SearchRecipes | src/lib/services/mealdb.ts:16-20 | Rejects exactly when the search request rejects. Otherwise gives the response's `meals`, or `[]` when it has none. |
| MealDb.RecipesByCategory | src/lib/services/mealdb.ts:38-42 | Rejects exactly when the filter request rejects. Otherwise gives the response's `meals`, or `[]` when it has none. |
| MealDb.Categories | src/lib/services/mealdb.ts:44-48 | Rejects exactly when the categories request rejects. Otherwise gives the response's `categories`, or `[]` when it has none. |
| MealDb.RecipeById | src/lib/services/mealdb.ts:50-54 | Rejects exactly when the lookup request rejects. Resolves to `undefined` exactly when `meals` is absent or empty, and otherwise to the first meal. |
| MealDb.FirstMeals | src/lib/services/mealdb.ts:24-30 | Succeeds exactly when every draw resolved with a non-empty `meals`, and then holds those first meals in draw order. |
| MealDb.MapValuesSpec | src/lib/services/mealdb.ts:34 | The `Map` values have distinct ids, exactly the batch's ids, and first-occurrence order. For each id, the value is the last record fetched with it. |
| MealDb.DedupeAndLimit | src/lib/services/mealdb.ts:33-35 | At most 6 records with distinct ids, all from the batch. The count is min(6, distinct ids), and fewer than 6 means every id is present. Each record is the last one fetched for its id, in first-occurrence order. The ids kept are the first six to appear: an id that first appears before a kept one is kept too. |
| MealDb.EarlierIdKept | src/lib/services/mealdb.ts:33-35 | In a prefix of the `Map` values, any id that first appears before a kept entry's id is also kept. |
| MealDb.GetRandomRecipes | src/lib/services/mealdb.ts:22-36 | Over its eight draws, rejects exactly when some draw rejects or lacks a first meal. Otherwise the result is `DedupeAndLimit` of the first meals, so it inherits that member's order, last-value and first-six facts: at most 6 distinct drawn meals, and exactly 6 when the draws hold 6 distinct ids. |
| LatestRoute.Card | src/app/api/recipes/latest/route.ts:22-28 | Each card copies id, title and image from the meal, with 30 minutes and 4 servings. |
| LatestRoute.CardJson | src/app/api/recipes/latest/route.ts:22-28 | The card object has exactly the keys `id`, `title`, `image`, `readyInMinutes`, `servings`, each holding the card's own value. |
| LatestRoute.Latest | src/app/api/recipes/latest/route.ts:8-28 | Fails exactly when some draw rejects or lacks a first meal. Otherwise it is the cards of `DedupeAndLimit` of the first meals, one per kept meal in order, so it carries the count, last-value and first-six facts: at most 6 cards with distinct ids, each the card of a drawn meal, in first-occurrence order. |
| LatestRoute.Cards | src/app/api/recipes/latest/route.ts:22-28 | One card per meal, in the same order. |
| LatestRoute.Get | src/app/api/recipes/latest/route.ts:5-38 | Answers 500 `Failed to fetch recipes` exactly when a draw fails. Otherwise the body is the array of card objects. |
| LatestRoute.SixCardsFromSixMeals | src/app/api/recipes/latest/route.ts:8-19 | Draws holding at least 6 distinct meals always give 6 cards. |
| RecipeModal.NonBlankMembers | src/components/recipe/RecipeModal.tsx:23 | The step filter keeps exactly the pieces that are not all white space. |
| RecipeModal.NonBlankAppend | src/components/recipe/RecipeModal.tsx:23 | Filtering a concatenation gives the filtered halves concatenated. So the filter keeps the pieces in their order, with every repeated copy. |
| RecipeModal.NonBlankSingle | src/components/recipe/RecipeModal.tsx:23 | A single piece survives the filter exactly when it is not all white space. |
| RecipeModal.BadgeFor | src/components/recipe/RecipeModal.tsx:24-26 | Easy/green for at most 5 steps, Medium/yellow for 6 to 8, Hard/red above 8. |
| RecipeModal.GetDifficulty | src/components/recipe/RecipeModal.tsx:22-27 | The badge is Easy exactly when at most 5 non-blank `\r\n`-pieces remain, and Hard exactly when more than 8 remain. |
| RecipeModal.DifficultyMonotone | src/components/recipe/RecipeModal.tsx:24-26 | More counted steps never give an easier badge. |
| RecipeModal.NoCrlfIsEasy | src/components/recipe/RecipeModal.tsx:23-24 | Instructions without `\r\n` count as at most one step and are always Easy. |
| RecipeModal.Ingredients | src/components/recipe/RecipeModal.tsx:34-41 | At most 20 entries, in increasing slot order. A slot is kept exactly when both its ingredient and its measure are present and not blank, and its values are kept untrimmed. |
| RecipeModal.YoutubeId | src/components/recipe/RecipeModal.tsx:43 | Present exactly when the link exists and contains `v=`. The id never contains `v=`. |
| RecipeModal.YoutubeIdAfterFirst | src/components/recipe/RecipeModal.tsx:43 | The id is the text after the first `v=`, up to the next `v=` or the end. |
| RecipeModal.EmbedUrl | src/components/recipe/RecipeModal.tsx:83-86 | A frame is shown exactly for a non-empty id, and its address is the embed base followed by the id. |
| RecipeModal.StepText | src/components/recipe/RecipeModal.tsx:143 | A shown step is its line with a blank head and a blank tail cut off. It is non-empty, free of line breaks and has no white space at either end. |
| RecipeModal.DisplayedSteps | src/components/recipe/RecipeModal.tsx:135-143 | One step per non-blank line of the line-break split, numbered 1 to n. Step k shows `trim()` of the k-th kept line, so it is non-empty, has no breaks and no white space at either end. |
| RecipeModal.StepCountBound | src/components/recipe/RecipeModal.tsx:135-137 | The difficulty step count never exceeds the number of displayed steps. |
| RecipeModal.CountBound | src/components/recipe/RecipeModal.tsx:136-137 | The induction invariant: the `\r\n` split cuts only where the line split also cuts. |
| SavedPage.RemoveFavorite | src/app/dashboard/saved/page.tsx:39-57 | After an ok response, no entry for the recipe remains, every other entry stays, and the length drops by the number of matches. The survivors keep their order, as a subsequence of the list. A non-ok or thrown request leaves the list unchanged. |
| SavedPage.WithoutMembers | src/app/dashboard/saved/page.tsx:50-52 | The surviving entries are exactly the entries for other recipes. |
| SavedPage.WithoutAppend | src/app/dashboard/saved/page.tsx:51 | Filtering a concatenation filters each part, so the survivors keep their relative order. |
| SavedPage.WithoutIsSubsequence | src/app/dashboard/saved/page.tsx:51 | The result is a subsequence of the original list. |
| SavedPage.WithoutIdempotent | src/app/dashboard/saved/page.tsx:51 | Filtering twice by the same recipe gives the same result as filtering once. |
| SavedPage.RemoveTwice | src/app/dashboard/saved/page.tsx:39-57 | A second removal after an ok one changes nothing, whatever the second request's outcome. |
| Text.Trim | src/components/recipe/RecipeModal.tsx:37 | The result is the input with a blank head and a blank tail cut off. It is empty exactly for all-white-space input, and otherwise starts and ends with a non-space character. |
| Text.TrimCharacterised | src/components/recipe/RecipeModal.tsx:37 | Any cut of a string into a blank head, a middle with non-space ends and a blank tail has that middle as its trimmed form, so the trimmed form is unique. |
| Text.SplitJoin | src/components/recipe/RecipeModal.tsx:23 | Joining the pieces of a split with the same separator gives back the original string. |
| Text.SplitFirst | src/components/recipe/RecipeModal.tsx:43 | The first piece runs up to the first separator, or is the whole string when there is none. |
| Text.SplitLinesNoBreaks | src/components/recipe/RecipeModal.tsx:136 | No piece of the line-break split contains `\r` or `\n`. |
| Text.SplitLinesConcat | src/components/recipe/RecipeModal.tsx:136 | Concatenating the line-break pieces gives the input with its line breaks removed. |
| Text.SplitLinesRejoin | src/components/recipe/RecipeModal.tsx:136 | There is one more line than matched terminators, and putting each terminator back between its lines gives the input. |

## Left out

- The bodies of `hashPassword`, `verifyPassword`, `generateToken` and `verifyToken`
  (bcrypt with 12 rounds, a JWT signed with the server secret, a seven-day expiry) are left
  out. They are uninterpreted functions. `verifyToken` returning `None` stands for every
  failure of `jwt.verify`, expiry included.
- The Prisma client and the seed script are left out. The user table is a sequence of rows
  with an auto-increment counter, because the schema is not part of this model. Each query
  that can throw has a boolean input, and a request body that does not parse is `None`.
- LoginRoute.Post: `verifyPassword` and `generateToken` are total functions, so a throw from
  `bcrypt.compare` on a malformed digest or from `jwt.sign` without a secret, which the
  handler's catch turns into 500 `Login failed`, is not modelled; its 500 covers only an
  unreadable body and a throwing query.
- SignupRoute.Post: `hashPassword` is a total function, so a throw from `bcrypt.hash` is not
  modelled; its 500 covers an unreadable body and either query throwing.
- Request bodies with missing or non-string fields are not modelled. Every field is a string.
- `fetch`, `response.json()` and `Promise.all` are replaced by inputs: each draw or lookup is
  a `Reply`, a rejection or the array field its response carried. Why a request rejects, and
  how the browse page's `catch` keeps its previous results, are left out.
- Logging with `console.log` and `console.error` has no effect on results and is left out.
- Redirect targets are paths. The absolute URL that `new URL(path, request.url)` builds is left
  out.
- `config.matcher` is read as path-to-regexp matching on the pathname only. Trailing slashes,
  locales and framework-internal data routes are left out.
- Sessions.LoginSetsSessionCookie: the browser's eviction of a non-persistent cookie when the
  browsing session ends is not modelled, so the `session` cookie stays in the jar until a
  response expires it. Domain and Path matching are not modelled either; every cookie here
  uses path `/` on one host.
- Sessions.LoginTokenUnreadByCheck: only tokens without `;` are covered. A `generateToken`
  result holding `;` would be cut by the header split, and the model says nothing about it;
  a JWT never holds `;`.
- Cookie attributes are recorded exactly as each handler passes them. Defaults that
  `response.cookies.set` may add during serialisation are left out.
- `process.env.NODE_ENV === 'production'` is the boolean `production`.
- JSON objects keep their members in the order the handler writes them. For the objects the
  database selects, that order is an assumption, since JSON does not define member order.
- The favourites API, `fetchSavedRecipes`, the auth context, the navbar, the providers, the
  browse and home pages, and all rendering (JSX, tabs, images, modal state) are left out.
- Ingredient slots hold strings or nothing. Other JSON values in those fields are not modelled.
- The check endpoint's `{authenticated: false}` branch is reached only through a throwing
  query. The other statements inside its `try` cannot throw once `verifyToken` catches its own
  errors.
