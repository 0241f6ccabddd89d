/**
 * The author test of a debate card: whether the signed-in user wrote the debate, by id or by
 * username, over the loosely shaped `author` and `currentUser` values the card receives.
 */
module DebateCard {
  import opened Js
  import Numbers

  /** `author._id || author.id || author`: a populated author's id, else the raw reference. */
  function AuthorId(author: JsValue): (r: JsValue)
    ensures Truthy(Prop(author, "_id")) ==> r == Prop(author, "_id")
    ensures !Truthy(Prop(author, "_id")) && Truthy(Prop(author, "id")) ==> r == Prop(author, "id")
    ensures !Truthy(Prop(author, "_id")) && !Truthy(Prop(author, "id")) ==> r == author
  {
    Or(Or(Prop(author, "_id"), Prop(author, "id")), author)
  }

  /** `currentUser._id || currentUser.id`. */
  function CurrentUserId(user: JsValue): (r: JsValue)
    ensures Truthy(Prop(user, "_id")) ==> r == Prop(user, "_id")
    ensures !Truthy(Prop(user, "_id")) ==> r == Prop(user, "id")
  {
    Or(Prop(user, "_id"), Prop(user, "id"))
  }

  /** Both ids are present and print the same. */
  predicate SameId(author: JsValue, user: JsValue) {
    Truthy(CurrentUserId(user)) && Truthy(AuthorId(author)) && ToStr(AuthorId(author)) == ToStr(CurrentUserId(user))
  }

  /** Both usernames are present and print the same. */
  predicate SameUsername(author: JsValue, user: JsValue) {
    Truthy(Prop(user, "username")) && Truthy(Prop(author, "username"))
    && ToStr(Prop(user, "username")) == ToStr(Prop(author, "username"))
  }

  predicate IsAuthor(author: JsValue, user: JsValue) {
    SameId(author, user) || SameUsername(author, user)
  }

  /** Without a signed-in user nobody is the author. */
  lemma NoUserIsNotAuthor(author: JsValue, user: JsValue)
    requires Nullish(user)
    ensures !IsAuthor(author, user)
  {
  }

  /** A raw author id matches exactly the user whose `_id` is that id. */
  lemma RawAuthor(a: string, u: string, user: map<string, JsValue>)
    requires a != "" && u != "" && "_id" in user && user["_id"] == Str(u)
    ensures IsAuthor(Str(a), Obj(user)) <==> a == u
  {
  }

  /**
   * A populated author matches the user with the same `_id`, and, when neither side carries a
   * username, only that user.
   */
  lemma PopulatedAuthor(a: string, u: string, author: map<string, JsValue>, user: map<string, JsValue>)
    requires a != "" && u != ""
    requires "_id" in author && author["_id"] == Str(a)
    requires "_id" in user && user["_id"] == Str(u)
    ensures a == u ==> IsAuthor(Obj(author), Obj(user))
    ensures "username" !in author ==> (IsAuthor(Obj(author), Obj(user)) <==> a == u)
  {
  }

  /** Ids are compared as text: a numeric author id matches a user whose `_id` is its decimal spelling. */
  lemma IdsComparedAsText(n: int, user: map<string, JsValue>)
    requires n != 0 && "_id" in user && user["_id"] == Str(Numbers.IntToString(n))
    ensures IsAuthor(Num(n), Obj(user))
  {
  }
}
