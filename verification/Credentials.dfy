/** Verification of signed credentials and their single use: verify, then consume. */
module Credentials {
  import opened Results
  import opened Text
  import opened ReplayCache

  const ED25519 := "Ed25519"

  /** A token whose three parts decoded; payload and signature stand for the decoded bytes. */
  datatype SignedClaims = SignedClaims(claims: Claims, payload: string, signature: string)

  datatype VerifierKey = VerifierKey(keyID: string, algorithm: string, publicKey: string)

  datatype Bundle = Bundle(networkID: string, keys: seq<VerifierKey>, expiresAt: Time)

  /** Base64 decoding and the Ed25519 check, as given library functions. */
  datatype Crypto = Crypto(decode: string -> Option<string>, verify: (string, string, string) -> bool)

  datatype VerifyError =
    | NilBundle | Malformed | WrongKind | WrongNetwork | BundleExpired | IssuedInFuture | TokenExpired
    | UnsupportedAlgorithm | UndecodableKey | NoKey | BadSignature | NotPermitted
    | KeySizePanic

  /** The length of an Ed25519 public key; ed25519.Verify panics on any other. */
  const PUBLIC_KEY_SIZE := 32

  /** The public key bytes chosen for a key id: the first entry with that id decides. */
  function SelectedKey(keys: seq<VerifierKey>, keyID: string, crypto: Crypto): Result<string, VerifyError> {
    if keys == [] then Ok("")
    else if keys[0].keyID != keyID then SelectedKey(keys[1..], keyID, crypto)
    else if keys[0].algorithm != ED25519 then Err(UnsupportedAlgorithm)
    else match crypto.decode(keys[0].publicKey)
      case None => Err(UndecodableKey)
      case Some(bytes) => Ok(bytes)
  }

  /** The window checks, in the order they are made. */
  function TimeError(claims: Claims, bundle: Bundle, now: Time): Option<VerifyError> {
    if now > bundle.expiresAt + MAX_CLOCK_SKEW then Some(BundleExpired)
    else if now < claims.issuedAt - MAX_CLOCK_SKEW then Some(IssuedInFuture)
    else if now > claims.expiresAt + MAX_CLOCK_SKEW then Some(TokenExpired)
    else None
  }

  function SignatureResult(token: SignedClaims, key: Result<string, VerifyError>, crypto: Crypto)
    : Result<Claims, VerifyError>
  {
    match key
    case Err(e) => Err(e)
    case Ok(bytes) =>
      if bytes == "" then Err(NoKey)
      else if |bytes| != PUBLIC_KEY_SIZE then Err(KeySizePanic)
      else if !crypto.verify(bytes, token.payload, token.signature) then Err(BadSignature)
      else Ok(token.claims)
  }

  function Verified(kind: TokenKind, token: Option<SignedClaims>, bundle: Option<Bundle>, now: Time, crypto: Crypto)
    : Result<Claims, VerifyError>
  {
    if bundle.None? then Err(NilBundle)
    else if token.None? then Err(Malformed)
    else
      var claims := token.value.claims;
      if claims.kind != KindName(kind) then Err(WrongKind)
      else if claims.networkID != TrimSpace(bundle.value.networkID) then Err(WrongNetwork)
      else match TimeError(claims, bundle.value, now)
        case Some(e) => Err(e)
        case None => SignatureResult(token.value, SelectedKey(bundle.value.keys, claims.keyID, crypto), crypto)
  }

  /** VerifyRuntimeCredential, VerifySenderDelegation and VerifyObserverDelegation differ only in
      the kind they expect. */
  method Verify(kind: TokenKind, token: Option<SignedClaims>, bundle: Option<Bundle>, now: Time, crypto: Crypto)
    returns (r: Result<Claims, VerifyError>)
    ensures r == Verified(kind, token, bundle, now, crypto)
  {
    if bundle.None? {
      return Err(NilBundle);
    }
    if token.None? {
      return Err(Malformed);
    }
    var claims := token.value.claims;
    if claims.kind != KindName(kind) {
      return Err(WrongKind);
    }
    if claims.networkID != TrimSpace(bundle.value.networkID) {
      return Err(WrongNetwork);
    }
    if now > bundle.value.expiresAt + MAX_CLOCK_SKEW {
      return Err(BundleExpired);
    }
    if now < claims.issuedAt - MAX_CLOCK_SKEW {
      return Err(IssuedInFuture);
    }
    if now > claims.expiresAt + MAX_CLOCK_SKEW {
      return Err(TokenExpired);
    }

    var keys := bundle.value.keys;
    var publicKey := "";
    var i := 0;
    while i < |keys|
      invariant 0 <= i <= |keys|
      invariant publicKey == ""
      invariant SelectedKey(keys, claims.keyID, crypto) == SelectedKey(keys[i..], claims.keyID, crypto)
    {
      var key := keys[i];
      i := i + 1;
      if key.keyID != claims.keyID {
        continue;
      }
      if key.algorithm != ED25519 {
        return Err(UnsupportedAlgorithm);
      }
      var bytes := crypto.decode(key.publicKey);
      if bytes.None? {
        return Err(UndecodableKey);
      }
      publicKey := bytes.value;
      break;
    }
    if publicKey == "" {
      return Err(NoKey);
    }
    if |publicKey| != PUBLIC_KEY_SIZE {
      return Err(KeySizePanic);
    }
    if !crypto.verify(publicKey, token.value.payload, token.value.signature) {
      return Err(BadSignature);
    }
    r := Ok(claims);
  }

  // ---- What verification accepts ----

  /** The i-th key is the first with the token's key id, is of Ed25519, and decodes to these bytes. */
  predicate KeyFor(token: SignedClaims, keys: seq<VerifierKey>, i: nat, crypto: Crypto, bytes: string) {
    && i < |keys| && keys[i].keyID == token.claims.keyID
    && (forall j :: 0 <= j < i ==> keys[j].keyID != token.claims.keyID)
    && keys[i].algorithm == ED25519 && crypto.decode(keys[i].publicKey) == Some(bytes)
  }

  /** Some key is the token's, and its bytes are of the right length and verify the signature. */
  ghost predicate Signed(token: SignedClaims, keys: seq<VerifierKey>, crypto: Crypto) {
    exists i: nat, bytes ::
      KeyFor(token, keys, i, crypto, bytes) && |bytes| == PUBLIC_KEY_SIZE
        && crypto.verify(bytes, token.payload, token.signature)
  }

  /** The token's key has bytes, but of another length. */
  ghost predicate KeyMisshapen(token: SignedClaims, keys: seq<VerifierKey>, crypto: Crypto) {
    exists i: nat, bytes :: KeyFor(token, keys, i, crypto, bytes) && bytes != "" && |bytes| != PUBLIC_KEY_SIZE
  }

  /** Kind, network and time admit the token. */
  predicate InWindow(kind: TokenKind, claims: Claims, bundle: Bundle, now: Time) {
    && claims.kind == (if kind == Runtime then "runtime" else if kind == Sender then "sender" else "observer")
    && claims.networkID == TrimSpace(bundle.networkID)
    && claims.issuedAt - 30_000_000_000 <= now
    && now <= claims.expiresAt + 30_000_000_000 && now <= bundle.expiresAt + 30_000_000_000
  }

  lemma {:induction false} SelectedKeyIsFirst(keys: seq<VerifierKey>, keyID: string, crypto: Crypto)
    ensures (forall j :: 0 <= j < |keys| ==> keys[j].keyID != keyID) ==> SelectedKey(keys, keyID, crypto) == Ok("")
    ensures forall i :: 0 <= i < |keys| && keys[i].keyID == keyID && (forall j :: 0 <= j < i ==> keys[j].keyID != keyID)
              ==> SelectedKey(keys, keyID, crypto) == SelectedKey([keys[i]], keyID, crypto)
  {
    if keys != [] && keys[0].keyID != keyID {
      SelectedKeyIsFirst(keys[1..], keyID, crypto);
      assert forall i :: 0 < i < |keys| ==> keys[i] == keys[1..][i - 1];
    }
  }

  lemma FirstWithKeyID(keys: seq<VerifierKey>, keyID: string) returns (i: nat)
    ensures i <= |keys| && forall j :: 0 <= j < i ==> keys[j].keyID != keyID
    ensures i < |keys| ==> keys[i].keyID == keyID
  {
    i := 0;
    while i < |keys| && keys[i].keyID != keyID
      invariant i <= |keys| && forall j :: 0 <= j < i ==> keys[j].keyID != keyID
    {
      i := i + 1;
    }
  }

  /** The selected key is the token's key, decoded, or there is none. */
  lemma SelectedKeyIff(token: SignedClaims, keys: seq<VerifierKey>, crypto: Crypto, bytes: string)
    requires bytes != ""
    ensures SelectedKey(keys, token.claims.keyID, crypto) == Ok(bytes)
            <==> exists i: nat :: KeyFor(token, keys, i, crypto, bytes)
  {
    var keyID := token.claims.keyID;
    SelectedKeyIsFirst(keys, keyID, crypto);
    var i := FirstWithKeyID(keys, keyID);
    if i < |keys| {
      assert SelectedKey([keys[i]], keyID, crypto) == SelectedKey(keys, keyID, crypto);
      assert KeyFor(token, keys, i, crypto, bytes) <==> SelectedKey(keys, keyID, crypto) == Ok(bytes);
    }
  }

  /** The token's key, if any, is the one that is selected. */
  lemma KeyForIsSelected(token: SignedClaims, keys: seq<VerifierKey>, i: nat, crypto: Crypto, bytes: string)
    requires KeyFor(token, keys, i, crypto, bytes) && bytes != ""
    ensures SelectedKey(keys, token.claims.keyID, crypto) == Ok(bytes)
  {
    SelectedKeyIff(token, keys, crypto, bytes);
  }

  lemma SignatureResultIff(token: SignedClaims, keys: seq<VerifierKey>, crypto: Crypto)
    ensures var r := SignatureResult(token, SelectedKey(keys, token.claims.keyID, crypto), crypto);
            && (r.Ok? <==> Signed(token, keys, crypto))
            && (r == Err(KeySizePanic) <==> KeyMisshapen(token, keys, crypto))
  {
    var selected := SelectedKey(keys, token.claims.keyID, crypto);
    if selected.Ok? && selected.value != "" {
      SelectedKeyIff(token, keys, crypto, selected.value);
    }
    SelectionErrors(keys, token.claims.keyID, crypto);
    if Signed(token, keys, crypto) {
      var i: nat, bytes :| KeyFor(token, keys, i, crypto, bytes) && |bytes| == PUBLIC_KEY_SIZE
        && crypto.verify(bytes, token.payload, token.signature);
      KeyForIsSelected(token, keys, i, crypto, bytes);
    }
    if KeyMisshapen(token, keys, crypto) {
      var i: nat, bytes :| KeyFor(token, keys, i, crypto, bytes) && bytes != "" && |bytes| != PUBLIC_KEY_SIZE;
      KeyForIsSelected(token, keys, i, crypto, bytes);
    }
  }

  lemma {:induction false} SelectionErrors(keys: seq<VerifierKey>, keyID: string, crypto: Crypto)
    ensures SelectedKey(keys, keyID, crypto).Err? ==>
              SelectedKey(keys, keyID, crypto).error in {UnsupportedAlgorithm, UndecodableKey}
  {
    if keys != [] {
      SelectionErrors(keys[1..], keyID, crypto);
    }
  }

  /** Acceptance is exactly: right kind and network, inside the skewed window, signed by the first
      matching key; and what is accepted are the token's own claims. */
  lemma VerifiedIff(kind: TokenKind, token: SignedClaims, bundle: Bundle, now: Time, crypto: Crypto, c: Claims)
    ensures Verified(kind, Some(token), Some(bundle), now, crypto) == Ok(c)
            <==> c == token.claims && InWindow(kind, token.claims, bundle, now) && Signed(token, bundle.keys, crypto)
  {
    SignatureResultIff(token, bundle.keys, crypto);
  }

  /** Why a token is refused: the first of the failing conditions, in this order. */
  lemma RefusedFor(kind: TokenKind, token: SignedClaims, bundle: Bundle, now: Time, crypto: Crypto)
    ensures var r, c := Verified(kind, Some(token), Some(bundle), now, crypto), token.claims;
            var rightKind := c.kind
              == ["runtime", "sender", "observer"][if kind.Runtime? then 0 else if kind.Sender? then 1 else 2];
            var rightNetwork := c.networkID == TrimSpace(bundle.networkID);
            && (r == Err(WrongKind) <==> !rightKind)
            && (r == Err(WrongNetwork) <==> rightKind && !rightNetwork)
            && (rightKind && rightNetwork ==>
                  && (r == Err(BundleExpired) <==> bundle.expiresAt + 30_000_000_000 < now)
                  && (r == Err(IssuedInFuture)
                      <==> now < c.issuedAt - 30_000_000_000 && now <= bundle.expiresAt + 30_000_000_000)
                  && (r == Err(TokenExpired)
                      <==> c.expiresAt + 30_000_000_000 < now && c.issuedAt - 30_000_000_000 <= now
                           && now <= bundle.expiresAt + 30_000_000_000))
    ensures forall now' :: Verified(kind, None, Some(bundle), now', crypto) == Err(Malformed)
    ensures forall t, now' :: Verified(kind, t, None, now', crypto) == Err(NilBundle)
  {
    SelectionErrors(bundle.keys, token.claims.keyID, crypto);
  }

  /** Of the tokens in their window, the key decides. */
  lemma RefusedByKey(kind: TokenKind, token: SignedClaims, bundle: Bundle, now: Time, crypto: Crypto, i: nat)
    requires InWindow(kind, token.claims, bundle, now)
    requires i <= |bundle.keys| && forall j :: 0 <= j < i ==> bundle.keys[j].keyID != token.claims.keyID
    requires i < |bundle.keys| ==> bundle.keys[i].keyID == token.claims.keyID
    ensures var r := Verified(kind, Some(token), Some(bundle), now, crypto);
            if i == |bundle.keys| then r == Err(NoKey)
            else if bundle.keys[i].algorithm != "Ed25519" then r == Err(UnsupportedAlgorithm)
            else match crypto.decode(bundle.keys[i].publicKey)
              case None => r == Err(UndecodableKey)
              case Some(bytes) =>
                if |bytes| == 0 then r == Err(NoKey)
                else if |bytes| != 32 then r == Err(KeySizePanic)
                else if crypto.verify(bytes, token.payload, token.signature) then r == Ok(token.claims)
                else r == Err(BadSignature)
  {
    SelectedKeyIsFirst(bundle.keys, token.claims.keyID, crypto);
    if i < |bundle.keys| {
      assert SelectedKey(bundle.keys, token.claims.keyID, crypto)
          == SelectedKey([bundle.keys[i]], token.claims.keyID, crypto);
    }
  }

  /** Verification panics exactly when an admitted token selects a nonempty key that is not 32 bytes long. */
  lemma VerifyPanicsIff(kind: TokenKind, token: SignedClaims, bundle: Bundle, now: Time, crypto: Crypto)
    ensures Verified(kind, Some(token), Some(bundle), now, crypto) == Err(KeySizePanic)
            <==> InWindow(kind, token.claims, bundle, now) && KeyMisshapen(token, bundle.keys, crypto)
  {
    SignatureResultIff(token, bundle.keys, crypto);
  }

  // ---- Runs of verify-then-consume ----

  /** One use of a credential: verified at one clock reading, put to the caller's own checks of
      network, audience and session, and consumed at another clock reading. */
  datatype Use = Use(kind: TokenKind, token: Option<SignedClaims>, bundle: Option<Bundle>, crypto: Crypto,
                     verifyAt: Time, permits: Claims -> bool, consumeAt: Time)
  {
    function Verdict(): Result<Claims, VerifyError> {
      match Verified(kind, token, bundle, verifyAt, crypto)
      case Err(e) => Err(e)
      case Ok(claims) => if permits(claims) then Ok(claims) else Err(NotPermitted)
    }

    /** The attempt that reaches the cache. */
    function ToAttempt(): Attempt
      requires Verdict().Ok?
    {
      ClaimsAttempt(kind, Verdict().value, consumeAt)
    }

    predicate Reaches(key: string) {
      Verdict().Ok? && Complete(ToAttempt()) && KeyOf(ToAttempt()) == key
    }
  }

  function Admit(seen: Seen, use: Use): (Seen, bool) {
    if use.Verdict().Err? then (seen, false)
    else
      var (after, outcome) := Consumed(seen, use.ToAttempt());
      (after, outcome == Accepted)
  }

  method AdmitUse(cache: Cache, use: Use) returns (ok: bool)
    modifies cache
    ensures (cache.seen, ok) == Admit(old(cache.seen), use)
  {
    var verdict := Verify(use.kind, use.token, use.bundle, use.verifyAt, use.crypto);
    if verdict.Err? || !use.permits(verdict.value) {
      return false;
    }
    var outcome := cache.ConsumeClaims(use.kind, Some(verdict.value), use.consumeAt);
    ok := outcome == Accepted;
  }

  function SeenAfter(uses: seq<Use>): Seen {
    if uses == [] then map[] else Admit(SeenAfter(uses[..|uses|-1]), uses[|uses|-1]).0
  }

  predicate Admitted(uses: seq<Use>, i: nat)
    requires i < |uses|
  {
    Admit(SeenAfter(uses[..i]), uses[i]).1
  }

  predicate OrderlyClock(uses: seq<Use>) {
    && (forall i :: 0 <= i < |uses| ==> uses[i].verifyAt <= uses[i].consumeAt)
    && (forall i, j :: 0 <= i < j < |uses| ==> uses[i].consumeAt <= uses[j].consumeAt)
  }

  lemma AdmitKeepsLive(seen: Seen, use: Use, key: string, limit: Time)
    requires key in seen && seen[key] == limit && use.consumeAt < limit
    ensures key in Admit(seen, use).0 && Admit(seen, use).0[key] == limit
  {
  }

  /** An admitted use is remembered as long as the clock stays before its limit. */
  lemma {:induction false} AdmittedIsRemembered(uses: seq<Use>, n: nat, i: nat, key: string)
    requires i < n <= |uses| && Admitted(uses, i) && uses[i].Reaches(key)
    requires forall j :: i < j < n ==> uses[j].consumeAt < Limit(uses[i].ToAttempt())
    ensures key in SeenAfter(uses[..n]) && SeenAfter(uses[..n])[key] == Limit(uses[i].ToAttempt())
    decreases n
  {
    assert uses[..n][..n-1] == uses[..n-1];
    if n - 1 > i {
      AdmittedIsRemembered(uses, n - 1, i, key);
      AdmitKeepsLive(SeenAfter(uses[..n-1]), uses[n - 1], key, Limit(uses[i].ToAttempt()));
    }
  }

  /** At most one use before the limit succeeds, whatever the other uses are and whichever
      credential shares the key: a second success lies at or beyond the first one's limit. */
  lemma SecondSuccessIsAtTheLimit(uses: seq<Use>, i: nat, j: nat, key: string)
    requires OrderlyClock(uses) && i < j < |uses|
    requires uses[i].Reaches(key) && uses[j].Reaches(key)
    requires Admitted(uses, i) && Admitted(uses, j)
    ensures uses[j].consumeAt >= Limit(uses[i].ToAttempt())
  {
    if uses[j].consumeAt < Limit(uses[i].ToAttempt()) {
      AdmittedIsRemembered(uses, j, i, key);
      assert false;
    }
  }

  /** No use verified after ExpiresAt plus the skew succeeds. */
  lemma NoneAdmittedAfterExpiry(uses: seq<Use>, i: nat)
    requires i < |uses| && Admitted(uses, i)
    ensures uses[i].token.Some? && uses[i].verifyAt <= uses[i].token.value.claims.expiresAt + 30_000_000_000
  {
    VerifiedIff(uses[i].kind, uses[i].token.value, uses[i].bundle.value, uses[i].verifyAt, uses[i].crypto,
                uses[i].token.value.claims);
  }

  /** Uses that reach the same key carry the same expiry (credential ids are unique). */
  ghost predicate KeysFixExpiry(uses: seq<Use>) {
    forall i, j, key :: 0 <= i < |uses| && 0 <= j < |uses| && uses[i].Reaches(key) && uses[j].Reaches(key)
      ==> Limit(uses[i].ToAttempt()) == Limit(uses[j].ToAttempt())
  }

  lemma {:induction false} RememberedWasAdmitted(uses: seq<Use>, n: nat, key: string) returns (i: nat)
    requires n <= |uses| && key in SeenAfter(uses[..n])
    ensures i < n && Admitted(uses, i) && uses[i].Reaches(key)
    ensures SeenAfter(uses[..n])[key] == Limit(uses[i].ToAttempt())
    decreases n
  {
    assert n > 0;
    var last := uses[n - 1];
    assert uses[..n][..n-1] == uses[..n-1];
    if last.Reaches(key) && Admitted(uses, n - 1) {
      i := n - 1;
    } else {
      i := RememberedWasAdmitted(uses, n - 1, key);
    }
  }

  /** Exactly which uses succeed: the verified ones with a complete key that are the first success
      for that key, or that reach the cache at or beyond the limit. */
  lemma AdmittedIff(uses: seq<Use>, j: nat)
    requires OrderlyClock(uses) && KeysFixExpiry(uses) && j < |uses|
    ensures Admitted(uses, j) <==>
            && uses[j].Verdict().Ok? && Complete(uses[j].ToAttempt())
            && (|| uses[j].consumeAt >= Limit(uses[j].ToAttempt())
                || forall i :: 0 <= i < j && Admitted(uses, i) ==> !uses[i].Reaches(KeyOf(uses[j].ToAttempt())))
  {
    if uses[j].Verdict().Ok? && Complete(uses[j].ToAttempt()) {
      var key := KeyOf(uses[j].ToAttempt());
      assert uses[j].Reaches(key);
      if !Admitted(uses, j) {
        RefusedWasUsed(uses, j, key);
      } else {
        forall i | 0 <= i < j && Admitted(uses, i) && uses[i].Reaches(key)
          ensures uses[j].consumeAt >= Limit(uses[j].ToAttempt())
        {
          SecondSuccessIsAtTheLimit(uses, i, j, key);
        }
      }
    }
  }

  /** A refused use comes before its limit and after a success of its key. */
  lemma RefusedWasUsed(uses: seq<Use>, j: nat, key: string)
    requires KeysFixExpiry(uses) && j < |uses| && uses[j].Reaches(key) && !Admitted(uses, j)
    ensures uses[j].consumeAt < Limit(uses[j].ToAttempt())
    ensures exists i :: 0 <= i < j && Admitted(uses, i) && uses[i].Reaches(key)
  {
    var i := RememberedWasAdmitted(uses, j, key);
    assert SeenAfter(uses[..j])[key] == Limit(uses[j].ToAttempt());
  }

  /** From the limit on nothing is refused as a replay: a credential verified in time can be consumed
      there any number of times. */
  lemma UsableFromTheLimitOn(uses: seq<Use>, j: nat)
    requires KeysFixExpiry(uses) && j < |uses| && uses[j].Verdict().Ok? && Complete(uses[j].ToAttempt())
    requires uses[j].consumeAt >= Limit(uses[j].ToAttempt())
    ensures Admitted(uses, j)
  {
    assert uses[j].Reaches(KeyOf(uses[j].ToAttempt()));
    if !Admitted(uses, j) {
      RefusedWasUsed(uses, j, KeyOf(uses[j].ToAttempt()));
    }
  }

  /** At the instant ExpiresAt plus the skew a credential still verifies, and can be used twice. */
  lemma UsableTwiceAtTheLimit(use: Use)
    requires use.Verdict().Ok? && Complete(use.ToAttempt())
    requires use.verifyAt == use.consumeAt == Limit(use.ToAttempt())
    ensures Admitted([use, use], 0) && Admitted([use, use], 1)
  {
    var uses := [use, use];
    assert uses[..1] == [use];
    assert [use][..0] == uses[..0] == [];
  }

  lemma KindNameInjective(a: TokenKind, b: TokenKind)
    requires KindName(a) == KindName(b)
    ensures a == b
  {
    assert KindName(a)[0] == KindName(b)[0];
  }

  /** Both carry a token, of one kind, network and id. */
  predicate SameCredential(a: Use, b: Use) {
    && a.kind == b.kind && a.token.Some? && b.token.Some?
    && TrimSpace(a.token.value.claims.networkID) == TrimSpace(b.token.value.claims.networkID)
    && TrimSpace(a.token.value.claims.jti) == TrimSpace(b.token.value.claims.jti)
  }

  /** One kind, and networks that `CanCollideIff` lets share a key. */
  predicate MayCollide(a: Use, b: Use) {
    && a.kind == b.kind && a.token.Some? && b.token.Some?
    && Overlap(TrimSpace(a.token.value.claims.networkID), TrimSpace(b.token.value.claims.networkID))
  }

  /** What a use needs apart from the cache, said of its token, bundle and clock. */
  ghost predicate Presentable(u: Use) {
    && u.token.Some? && u.bundle.Some?
    && InWindow(u.kind, u.token.value.claims, u.bundle.value, u.verifyAt)
    && Signed(u.token.value, u.bundle.value.keys, u.crypto)
    && u.permits(u.token.value.claims) && TrimSpace(u.token.value.claims.jti) != ""
  }

  lemma PresentableIff(u: Use)
    ensures Presentable(u) <==> u.Verdict().Ok? && Complete(u.ToAttempt())
    ensures u.Verdict().Ok? ==> u.token.Some? && u.Verdict().value == u.token.value.claims
  {
    KindNameIsPlain(u.kind);
    if u.token.Some? && u.bundle.Some? {
      VerifiedIff(u.kind, u.token.value, u.bundle.value, u.verifyAt, u.crypto, u.token.value.claims);
    }
  }

  /** Two credentials with different kinds, networks or ids never count as uses of one another. */
  lemma DifferentCredentialsDoNotCollide(a: Use, b: Use, key: string)
    requires a.Reaches(key) && b.Reaches(key) && !MayCollide(a, b)
    ensures SameCredential(a, b)
  {
    PresentableIff(a);
    PresentableIff(b);
    var x, y := a.token.value.claims, b.token.value.claims;
    KindNameIsPlain(a.kind);
    KindNameIsPlain(b.kind);
    TrimSpaceIsTrimmed(x.jti);
    TrimSpaceIsTrimmed(y.jti);
    if KindName(a.kind) == KindName(b.kind) {
      KindNameInjective(a.kind, b.kind);
    }
    JoinedKeyInjective(KindName(a.kind), TrimSpace(x.networkID), TrimSpace(x.jti),
                       KindName(b.kind), TrimSpace(y.networkID), TrimSpace(y.jti));
    KindNameInjective(a.kind, b.kind);
  }

  lemma SameCredentialSharesKey(a: Use, b: Use)
    requires SameCredential(a, b) && Presentable(a) && Presentable(b)
    ensures a.Verdict().Ok? && a.Reaches(KeyOf(a.ToAttempt())) && b.Reaches(KeyOf(a.ToAttempt()))
    ensures Limit(a.ToAttempt()) == a.token.value.claims.expiresAt + 30_000_000_000
  {
    PresentableIff(a);
    PresentableIff(b);
  }

  lemma AdmittedIsPresentable(uses: seq<Use>, i: nat)
    requires i < |uses| && Admitted(uses, i)
    ensures Presentable(uses[i])
  {
    PresentableIff(uses[i]);
  }

  /** At most one use of a credential before its expiry plus 30 s succeeds, whatever else is used in
      between: a second success lies at or beyond that instant. */
  lemma AtMostOneSuccessBeforeLimit(uses: seq<Use>, i: nat, j: nat)
    requires OrderlyClock(uses) && i < j < |uses| && SameCredential(uses[i], uses[j])
    requires Admitted(uses, i) && Admitted(uses, j)
    ensures uses[j].consumeAt >= uses[i].token.value.claims.expiresAt + 30_000_000_000
  {
    AdmittedIsPresentable(uses, i);
    AdmittedIsPresentable(uses, j);
    SameCredentialSharesKey(uses[i], uses[j]);
    SecondSuccessIsAtTheLimit(uses, i, j, KeyOf(uses[i].ToAttempt()));
  }

  /** Credentials are not confused with others, and each has one expiry. */
  predicate ProperCredentials(uses: seq<Use>) {
    && (forall i, j :: 0 <= i < |uses| && 0 <= j < |uses| ==> !MayCollide(uses[i], uses[j]))
    && (forall i, j :: 0 <= i < |uses| && 0 <= j < |uses| && SameCredential(uses[i], uses[j]) ==>
          uses[i].token.value.claims.expiresAt == uses[j].token.value.claims.expiresAt)
  }

  lemma ProperKeysFixExpiry(uses: seq<Use>)
    requires ProperCredentials(uses)
    ensures KeysFixExpiry(uses)
  {
    forall i, j, key | 0 <= i < |uses| && 0 <= j < |uses| && uses[i].Reaches(key) && uses[j].Reaches(key)
      ensures Limit(uses[i].ToAttempt()) == Limit(uses[j].ToAttempt())
    {
      DifferentCredentialsDoNotCollide(uses[i], uses[j], key);
      PresentableIff(uses[i]);
      PresentableIff(uses[j]);
    }
  }

  /** Some earlier use of the same credential succeeded. */
  predicate UsedBefore(uses: seq<Use>, j: nat)
    requires j < |uses|
  {
    exists i :: 0 <= i < j && Admitted(uses, i) && SameCredential(uses[i], uses[j])
  }

  /** Exactly which uses succeed, said of tokens, bundles and clocks: those that verify and are permitted
      and are either the first success of their credential or reach the cache at or beyond its expiry
      plus 30 s. */
  lemma SucceedsIff(uses: seq<Use>, j: nat)
    requires OrderlyClock(uses) && ProperCredentials(uses) && j < |uses|
    ensures Admitted(uses, j) <==>
            && Presentable(uses[j])
            && (uses[j].consumeAt >= uses[j].token.value.claims.expiresAt + 30_000_000_000 || !UsedBefore(uses, j))
  {
    ProperKeysFixExpiry(uses);
    AdmittedIff(uses, j);
    PresentableIff(uses[j]);
    if Presentable(uses[j]) {
      var key := KeyOf(uses[j].ToAttempt());
      forall i | 0 <= i < j && Admitted(uses, i) ensures uses[i].Reaches(key) <==> SameCredential(uses[i], uses[j]) {
        AdmittedIsPresentable(uses, i);
        if SameCredential(uses[i], uses[j]) {
          SameCredentialSharesKey(uses[i], uses[j]);
        }
        if uses[i].Reaches(key) {
          assert uses[j].Reaches(key);
          DifferentCredentialsDoNotCollide(uses[i], uses[j], key);
        }
      }
    }
  }
}
