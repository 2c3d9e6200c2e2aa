# Blog list backend: aggregates and user registration

A Dafny model of the two pieces of real logic in a small blog-publishing
backend (an Express/Mongoose application):

- **The list helpers** (`utils/list_helper.js`): `dummy`, `totalLikes` and
  `favoriteBlog`, three folds over a list of blogs. Module `ListHelper`
  (`list_helper.dfy`) writes `totalLikes` and `favoriteBlog` as the source
  writes them, as left folds (`reduce`) with an accumulator. It then proves
  what they compute against independent definitions: a right-fold sum, and a
  "last position of the maximum" predicate.
- **User registration** (`controllers/users.js`, `POST /`): the length
  check on username and password, the fixed 400 error, and the record that
  is saved. Module `Users` (`users.dfy`) models the handler as a pure
  function `Register`. It takes the request body (each field optional), the
  store of users as a sequence, and the password hasher as a function
  parameter. It returns the reply and the new store.

`options.dfy` holds the `Option` type used by both. `None` stands for a
missing request field, and for the empty object `{}` that `favoriteBlog`
starts from and may return.

Modelling choices:

- A blog is `Blog(title, author, url, likes: int)`. `likes` is a required
  integer. Integers are unbounded, so the model has no floating-point
  rounding in large totals.
- `maxLikesBlog.likes || 0` is modelled as `LikesOrZero`: 0 for `{}`, and
  otherwise the blog's likes. This agrees with JavaScript for integers,
  since 0 is the only falsy integer.
- String lengths are Dafny sequence lengths (`|s|`). JavaScript counts
  UTF-16 code units, so the two differ for characters outside the Basic
  Multilingual Plane.
- bcrypt is the parameter `hash: string -> string`. Nothing is claimed
  about salting. Each call of `Register` stands for one run of the handler
  with whatever hash that run produced.

Ties in `favoriteBlog` go to the last maximum, not the first:
`utils/list_helper.js:11` keeps the accumulator only when its likes are
strictly greater, so an equal later blog replaces it
(`FavoriteBlogTieGoesToLast`, `FavoriteBlogIsLastMaximum`).

## Model

| member | source | states |
|---|---|---|
| ListHelper.Dummy | utils/list_helper.js:1-3 | `dummy`, `1 + blogs.length`; no contract of its own, characterised by DummyCountsFromOne |
| ListHelper.DummyCountsFromOne | utils/list_helper.js:1-3 | `dummy` is 1 on the empty list, at least 1 always, and grows by exactly one per added blog |
| ListHelper.SumFrom | utils/list_helper.js:6 | folding from an accumulator `total` yields `total` plus the likes of all remaining blogs |
| ListHelper.TotalLikes | utils/list_helper.js:5-7 | `totalLikes` (a left fold from 0) equals the right-fold sum of all likes |
| ListHelper.TotalLikesBaseCases | utils/list_helper.js:6 | the empty list totals 0; a one-blog list totals that blog's likes |
| ListHelper.TotalLikesAppend | utils/list_helper.js:5-7 | the total of a concatenation is the sum of the two totals |
| ListHelper.SumRemove | utils/list_helper.js:6 | removing the blog at any position takes exactly its likes off the sum |
| ListHelper.TotalLikesPermutation | utils/list_helper.js:5-7 | two lists holding the same blogs in any order have the same total |
| ListHelper.TotalLikesBounds | utils/list_helper.js:6 | with no negative likes, the total is non-negative and at least the likes of every blog |
| ListHelper.LikesOrZero | utils/list_helper.js:11 | the accumulator's likes, with 0 as the fallback for `{}`; no contract of its own, its effect is stated by FavoriteBlogAllNegative |
| ListHelper.Keep | utils/list_helper.js:11 | the reduce callback's ternary; no contract of its own, characterised step by step by FavoriteFromSnoc |
| ListHelper.FavoriteFrom | utils/list_helper.js:10-12 | the reduce over the remaining blogs from a given accumulator; no contract of its own, characterised by FavoriteFromSnoc |
| ListHelper.FavoriteBlog | utils/list_helper.js:9-13 | the reduce from `{}`; no contract of its own, characterised by FavoriteBlogIsLastMaximum and FavoriteBlogIsAtLastMaximum |
| ListHelper.FavoriteFromSnoc | utils/list_helper.js:10-12 | reducing a list extended by one blog is one more keep-or-replace step on the previous result |
| ListHelper.FavoriteBlogIsLastMaximum | utils/list_helper.js:9-13 | for every list: the result is `{}` exactly when all likes are negative (so also for the empty list); otherwise it is the blog at the last position holding the maximum likes |
| ListHelper.LastMaximumUnique | utils/list_helper.js:11 | at most one position is the last maximum, so the previous row fixes the result |
| ListHelper.FavoriteBlogIsAtLastMaximum | utils/list_helper.js:10-12 | when a position holds the last maximum and that maximum is not negative, the result is exactly the blog at that position |
| ListHelper.FavoriteBlogEmpty | utils/list_helper.js:10-12 | the empty list gives the empty marker `{}` |
| ListHelper.FavoriteBlogOfNonNegative | utils/list_helper.js:10-12 | with no negative likes and at least one blog, the result is a blog of the list with likes at least every blog's |
| ListHelper.FavoriteBlogAllNegative | utils/list_helper.js:11-12 | the empty accumulator compares as 0 likes, so a list of only negative-liked blogs gives `{}` |
| ListHelper.FavoriteBlogTieGoesToLast | utils/list_helper.js:11 | of two blogs with equal non-negative likes, the second is returned, because the comparison is strict |
| Users.OrEmpty | controllers/users.js:13 | `value ? value : ''`; no contract of its own, its effect is stated by MissingFieldRejected |
| Users.LongEnough | controllers/users.js:13 | the negation of the `.length < 3` test on one coerced field; no contract of its own, used in the contract of Register and stated by ShortFieldRejected and ThreeCharactersAccepted |
| Users.Register | controllers/users.js:10-24 | accepted exactly when both coerced lengths are at least 3; rejection gives status 400 with the fixed message and the store unchanged; acceptance appends one user with the submitted username and name and the hash of the password |
| Users.MissingFieldRejected | controllers/users.js:13-14 | a missing username or password is read as `""` and rejected with the fixed 400 error, store unchanged |
| Users.ShortFieldRejected | controllers/users.js:13-14 | a username or password shorter than 3 characters rejects the request by itself, whatever the other field is |
| Users.ThreeCharactersAccepted | controllers/users.js:13 | a username and password of exactly 3 characters are accepted: the bound is inclusive |
| Users.RegisterOnlyAppends | controllers/users.js:13-23 | existing users stay in place and in order; the store grows by one exactly when a user is saved, and otherwise not at all |
| Users.SavedUserKeepsOnlyHash | controllers/users.js:17-22 | the saved user depends on the password only through its hash: two passwords of at least 3 characters with equal hashes give identical outcomes |

## Left out

- `GET /` of the users controller (`controllers/users.js:6-8`): a database query with `populate` and JSON output, no logic of its own.
- The blogs controller (`controllers/blogs.js`): thin routes over Mongoose `find` and `save`.
- bcrypt's salt and cost factor (`controllers/users.js:16-17`): a foreign library, replaced by the `hash` parameter. Nothing is claimed about two hashes of the same password.
- Failures of `user.save()` (schema validation, username uniqueness): `models/user.js` is not part of this model, so a save always succeeds here.
- HTTP transport: status codes are carried as data (`BadRequest(400, …)`); a successful save's reply is `Saved(user)`, not a JSON body with a 200 status.
- JavaScript dynamic typing: a non-string username or password (whose `.length` may be `undefined`), and a missing or non-numeric `likes` (which would give `NaN`), are outside the model. Fields are typed `Option<string>` and `int`.
- Users.Register: models JavaScript string length as sequence length, not as UTF-16 code units.
