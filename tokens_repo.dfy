/** The verification-token table (`tokensRepo`). Tokens reference a user by
    id but take part in none of the mirrored relations, so every token
    operation leaves the other tables, and their consistency, alone. */
module TokensRepo {
  import opened Wrappers
  import opened Models
  import Tables

  /** Every token in the collection's natural order. */
  function AllTokens(db: Db): (r: seq<Token>)
    ensures forall k :: k in db.tokens && k < db.nextId ==> db.tokens[k] in r
    ensures forall x :: x in r ==> exists k :: k in db.tokens && db.tokens[k] == x
  {
    Tables.InKeyOrder(db.tokens, db.nextId)
  }

  /** `create`: stores the record under the next id and returns it. */
  function CreateToken(db: Db, input: TokenInput): (r: (Db, Token))
    ensures r.1.id == db.nextId && r.0.nextId == db.nextId + 1
    ensures r.0.tokens == db.tokens[r.1.id := r.1]
    ensures r.0.users == db.users && r.0.gossips == db.gossips && r.0.comments == db.comments
  {
    var t := Token(db.nextId, input.userId, input.token, input.expirationDate, input.sentEmails, input.registrationIp);
    (db.(tokens := db.tokens[db.nextId := t], nextId := db.nextId + 1), t)
  }

  /** The stored record carries the input's fields under an id no stored
      token has. */
  lemma CreateTokenStores(db: Db, input: TokenInput)
    requires TokensKeyed(db.tokens, db.nextId)
    ensures var (db', t) := CreateToken(db, input);
      && t.id !in db.tokens
      && t.userId == input.userId && t.token == input.token
      && t.expirationDate == input.expirationDate && t.sentEmails == input.sentEmails
      && t.registrationIp == input.registrationIp
  {
  }

  predicate Matches(userId: Id, token: string, t: Token) {
    t.userId == userId && t.token == token
  }

  /** `findByIdAndToken`: the first record whose user and token both match. */
  function FindByIdAndToken(db: Db, userId: Id, token: string): (r: Option<Token>)
    ensures r.Some? ==> r.value.userId == userId && r.value.token == token && r.value in AllTokens(db)
    ensures r.None? ==> forall t :: t in AllTokens(db) ==> !Matches(userId, token, t)
  {
    Tables.FindFirst(AllTokens(db), t => Matches(userId, token, t))
  }

  /** A token just created is found by its user and token string, unless an
      earlier record already held the same pair. */
  lemma FindAfterCreate(db: Db, input: TokenInput)
    requires TokensKeyed(db.tokens, db.nextId)
    requires forall k :: k in db.tokens ==> !Matches(input.userId, input.token, db.tokens[k])
    ensures var (db', t) := CreateToken(db, input);
      FindByIdAndToken(db', input.userId, input.token) == Some(t)
  {
    var (db', t) := CreateToken(db, input);
    var rows := AllTokens(db');
    assert t in rows;
    var r := FindByIdAndToken(db', input.userId, input.token);
    var k :| k in db'.tokens && db'.tokens[k] == r.value;
  }

  /** `addSentDate`: `$push` of the date onto `sentEmails`; a push always
      modifies, so the answer is whether the record exists. */
  function AddSentDate(db: Db, tid: Id, date: Time): (r: (Db, bool))
    ensures r.1 <==> tid in db.tokens
    ensures !r.1 ==> r.0 == db
    ensures r.1 ==> r.0 == db.(tokens := db.tokens[tid := db.tokens[tid].(sentEmails := db.tokens[tid].sentEmails + [date])])
  {
    if tid !in db.tokens then (db, false)
    else (db.(tokens := db.tokens[tid := db.tokens[tid].(sentEmails := db.tokens[tid].sentEmails + [date])]), true)
  }

  /** The date lands at the end of the list and nothing else of the record
      changes. */
  lemma AddSentDateAppends(db: Db, tid: Id, date: Time)
    requires tid in db.tokens
    ensures var t' := AddSentDate(db, tid, date).0.tokens[tid];
      && |t'.sentEmails| == |db.tokens[tid].sentEmails| + 1
      && t'.sentEmails[|t'.sentEmails| - 1] == date
      && t'.sentEmails[..|t'.sentEmails| - 1] == db.tokens[tid].sentEmails
      && t'.(sentEmails := db.tokens[tid].sentEmails) == db.tokens[tid]
  {
  }

  /** `delete`: removes the record; answers whether it existed. */
  function DeleteToken(db: Db, tid: Id): (r: (Db, bool))
    ensures r.1 <==> tid in db.tokens
    ensures r.0 == db.(tokens := db.tokens - {tid})
  {
    (db.(tokens := db.tokens - {tid}), tid in db.tokens)
  }

  /** A deleted record is no longer found, and a second delete answers false. */
  lemma DeleteTokenGone(db: Db, tid: Id)
    ensures var db' := DeleteToken(db, tid).0;
      && tid !in db'.tokens
      && (forall x :: x in AllTokens(db') ==> exists k :: k in db.tokens && k != tid && db.tokens[k] == x)
      && !DeleteToken(db', tid).1
  {
  }

  /** Token operations keep every invariant of the store. */
  lemma CreateTokenKeepsInvariants(db: Db, input: TokenInput)
    requires Valid(db) && Consistent(db)
    ensures Valid(CreateToken(db, input).0) && Consistent(CreateToken(db, input).0)
  {
    CreateTokenKeepsValid(db, input);
    TokensOnly(db, CreateToken(db, input).0);
  }

  lemma CreateTokenKeepsValid(db: Db, input: TokenInput)
    requires Valid(db)
    ensures Valid(CreateToken(db, input).0)
  {
    var db' := CreateToken(db, input).0;
    UsersFrame(db.users, db'.users, db.nextId, db'.nextId);
    GossipsFrame(db.gossips, db'.gossips, db.nextId, db'.nextId);
    CommentsFrame(db.comments, db'.comments, db.nextId, db'.nextId);
  }

  lemma AddSentDateKeepsInvariants(db: Db, tid: Id, date: Time)
    requires Valid(db) && Consistent(db)
    ensures Valid(AddSentDate(db, tid, date).0) && Consistent(AddSentDate(db, tid, date).0)
  {
    TokensOnly(db, AddSentDate(db, tid, date).0);
  }

  lemma DeleteTokenKeepsInvariants(db: Db, tid: Id)
    requires Valid(db) && Consistent(db)
    ensures Valid(DeleteToken(db, tid).0) && Consistent(DeleteToken(db, tid).0)
  {
    TokensOnly(db, DeleteToken(db, tid).0);
  }

  /** Consistency does not look at the token table. */
  lemma TokensOnly(a: Db, b: Db)
    requires Consistent(a)
    requires b.users == a.users && b.gossips == a.gossips && b.comments == a.comments
    ensures Consistent(b)
  {
    assert SameLinks(a, b);
    SameLinksConsistent(a, b);
  }
}
