# Member and wishlist service, modelled in Dafny

This project models the service layer of a small gift-shop backend: members
register with an email and a password, log in to receive a bearer token, and
keep a wishlist of products. The service (`MemberService`) works over three
stores — members by email, products by id, and wishlist rows linking a member
to a product — and over the `Member` entity, whose wishlist is a mutable list
object that the entity hands out by reference.

Files and modules:

- `collections.dfy` — `Collections.ArrayList`: the growable list the entities
  keep their wishlist rows in. It carries a ghost `owner` key so that proofs
  can tell two members' lists apart.
- `entities.dfy` — `Entities`: emails, product ids and the `Wishlist` row,
  identified by its (member email, product id) pair.
- `member.dfy` — `Members.Member`: the entity with its constructor, getters and
  password check; `Members.StringEquals` is Java's `String.equals`.
- `member_service.dfy` — `MemberServices`: the error type that replaces the
  thrown exceptions, the token record, and the `MemberService` class whose
  fields are the three stores. Its object invariant `Valid()` says that every
  member is filed under its own email and owns its list, and that every stored
  wishlist row is unique, names a stored member and product, and appears in
  both of their in-memory lists.
- `scenarios.dfy` — callers' walk-throughs (register twice, log in with right
  and wrong passwords, add, re-add, delete) proved from the contracts alone.

Modelling choices:

- Exceptions become `Error` values: `AlreadyExists(MemberEntity)` for a taken
  email, `AlreadyExists(WishlistEntity)` for a duplicate row,
  `NotFound(MemberEntity | ProductEntity | WishlistEntity)` for a missing
  record, `InvalidPassword` for a wrong password.
- The wishlist store's `findByWishlist` and `deleteByWishlist` are taken to
  look up and delete rows by their (member email, product id) pair. The store
  is a multiset: it does not forbid duplicate rows itself, and the model proves
  that the service's check-before-save keeps every pair to at most one row.
- The product store maps each product id to that product's own in-memory list
  of wishlist rows, the list `addWishlist` appends to.
- `addWishlist` appends the new row to the member's and the product's
  in-memory lists before the duplicate check, and the appends are not undone
  when the check fails. `deleteWishlist` deletes the stored row but leaves the
  in-memory lists as they are. `getAllWishlist` reads the in-memory list. The
  model keeps all three behaviours as written: after a refused duplicate add
  the listing shows the product twice, although the intended behaviour is that
  an added product is listed exactly once; and the intended name of the login
  failure, an invalid credential, is the code's invalid password.
- `Member`'s email, password and list reference are `const`: only the
  constructor assigns them, and no setter exists.
- The token is the record `Jwt(subject, ttlMillis)` of what is asked of the
  token issuer; the validity is 1000 × 60 × 30 = 1,800,000 ms, which fits in a
  Java `int`.

## Model

| member | source | states |
|---|---|---|
| `Collections.ArrayList.constructor` | src/main/java/gift/dto/Member.java:26 | a new list is empty |
| `Collections.ArrayList.Add` | src/main/java/gift/service/MemberService.java:82-83 | `add` puts the element at the end and keeps every earlier element in place |
| `Members.StringEquals` | src/main/java/gift/dto/Member.java:48-50 | the character-by-character comparison of `String.equals` holds exactly when the two strings are equal |
| `Members.Member.constructor` | src/main/java/gift/dto/Member.java:26-34 | the getters give back the email and password passed in, and the wishlist is a new, empty list owned by this member |
| `Members.Member.GetEmail` | src/main/java/gift/dto/Member.java:36-38 | returns the stored email; reads only |
| `Members.Member.GetPassword` | src/main/java/gift/dto/Member.java:40-42 | returns the stored password; reads only |
| `Members.Member.GetWishlist` | src/main/java/gift/dto/Member.java:44-46 | returns the list object itself, not a copy, so appends made through it are seen by every later read |
| `Members.Member.IsCorrectPassword` | src/main/java/gift/dto/Member.java:48-50 | true exactly when the stored password equals the given string |
| `MemberServices.ToProducts` | src/main/java/gift/service/MemberService.java:71 | one product per wishlist row, same length, same order |
| `MemberServices.ToProductsAppend` | src/main/java/gift/service/MemberService.java:71 | appending a row to a list appends its product to the projection |
| `MemberServices.MemberService.constructor` | src/main/java/gift/service/MemberService.java:25-31 | a service over consistent stores holds exactly those stores and is valid |
| `MemberServices.MemberService.EmailIsUniqueKey` | src/main/java/gift/dto/Member.java:20-21 | two entries of the member store are different members, with different emails and different lists |
| `MemberServices.MemberService.RegisterMember` | src/main/java/gift/service/MemberService.java:38-44 | a taken email fails with AlreadyExists and leaves the member store as it was; a new email adds exactly that member under its email and changes no other entry; the other stores are untouched and the invariant is kept |
| `MemberServices.MemberService.Login` | src/main/java/gift/service/MemberService.java:53-60 | an unknown email fails with NotFound, exactly; a known email with another password fails with InvalidPassword, exactly; otherwise the token is for the given email with a 1,800,000 ms validity; nothing is written |
| `MemberServices.MemberService.GetAllWishlist` | src/main/java/gift/service/MemberService.java:68-72 | an unknown email fails with NotFound, exactly; otherwise one product per entry of the member's in-memory list, same length, same order |
| `MemberServices.MemberService.StoredWishlistIsListed` | src/main/java/gift/service/MemberService.java:79-89 | every row in the wishlist store is listed by getAllWishlist for its member |
| `MemberServices.MemberService.ConvertWishlistRequestToWishlist` | src/main/java/gift/service/MemberService.java:107-113 | a missing member fails with NotFound(member) whatever the product; then a missing product fails with NotFound(product); otherwise the row links the requested email and product |
| `MemberServices.MemberService.AppendToLists` | src/main/java/gift/service/MemberService.java:82-83 | the row is appended to the member's list and to the product's list; no other list and no store changes |
| `MemberServices.MemberService.SaveWishlist` | src/main/java/gift/service/MemberService.java:88 | the wishlist store gains exactly that row, and a row that was new keeps every pair unique |
| `MemberServices.MemberService.AppendCheckAndSave` | src/main/java/gift/service/MemberService.java:82-88 | the lists grow by the row and the listing by its product in every case; an existing pair then fails with AlreadyExists and leaves the store as it was, a new pair is saved |
| `MemberServices.MemberService.AddWishlist` | src/main/java/gift/service/MemberService.java:79-89 | a missing member, then a missing product, fail with NotFound and change nothing; otherwise the member's list (and only it) and the product's list grow by the row, the listing ends with the product, and the store gains the row unless the pair was present, in which case AlreadyExists is returned with the store unchanged; the invariant is kept |
| `MemberServices.MemberService.DeleteWishlist` | src/main/java/gift/service/MemberService.java:96-102 | a missing member, then a missing product, fail with NotFound; then an absent pair fails with NotFound(wishlist); a present pair is removed and every other row, the member's other products included, stays; the in-memory lists and the other stores never change |

## Left out

- Token signing: `JwtUtil.createJwt` is not part of this model; a token is the record of its subject and validity.
- Persistence machinery: the entity annotations, id generation, the no-argument `Member()` constructor that only the persistence framework calls, and the cascade removal of a member's rows (no operation here deletes a member).
- When the in-memory lists are loaded: the model keeps every entity's list across calls, as within one persistence context; a fresh request that reloads entities from the stores is not modelled.
- Transactions and concurrency: each operation runs alone, so the race between a check and the write after it is not modelled.
- The Product, ProductDto, Wishlist and WishlistRequest classes are not part of this model beyond their keys; a listed product is its id.
- The error message constants: each thrown exception is its `Error` value.
- Null: strings are never null, so `isCorrectPassword` on a member without a password (a `NullPointerException` in Java) is not modelled.
- `Collections.ArrayList.Add`: the `true` that `ArrayList.add` returns is dropped, since the service ignores it.
