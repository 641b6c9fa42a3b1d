/**
 * The client half of the link lock: the decryption dialog (`src/components/DecryptDialog.jsx`).
 *
 * `decryptUrl` undoes the framing `encrypt_url` builds: it re-pads the base64url text, maps its
 * alphabet back to standard base64, decodes it, splits the 12-byte nonce off the front and opens
 * the rest with a key derived from the typed password. `handleDecrypt` guards against empty
 * fields and strips the `encrypted:` prefix; the effects reset the dialog when it opens and hide
 * the result after five seconds. The dialog's state hooks are the fields of `Dialog`.
 */
module DecryptDialog {
  import opened Wrappers
  import opened Text
  import opened Crypto
  import opened BuildScript

  /** The PBKDF2 parameters `deriveKey` is called with: a 256-bit AES-GCM key. */
  const ClientKdf: KdfParams := KdfParams("static_salt_for_blog", 100000, Sha256, 256)

  /** Where `decryptUrl` cuts the decoded bytes: the IV length it assumes. */
  const ClientNonceLength: nat := 12

  /** The two sides derive keys and frame payloads with the same parameters. */
  lemma KdfAgreement()
    ensures ClientKdf == BuildKdf
    ensures ClientNonceLength == NonceLength
  {
  }

  /** The key `decryptUrl` derives from the typed password. */
  function DeriveClientKey(p: Primitives, password: string): seq<byte> {
    p.pbkdf2(p.utf8Encode(password), ClientKdf)
  }

  /** The decryption side derives the very key the build side encrypted with. */
  lemma SameKey(p: Primitives, password: string)
    ensures DeriveClientKey(p, password) == GenerateKey(p, password)
  {
    KdfAgreement();
  }

  function Padding(k: nat): (r: string)
    ensures |r| == k && forall i :: 0 <= i < k ==> r[i] == '='
  {
    if k == 0 then [] else Padding(k - 1) + ['=']
  }

  /** `padEnd(len + (4 - len % 4) % 4, '=')`: the shortest `=`-extension to a multiple of four. */
  function Repad(s: string): (r: string)
    ensures |r| % 4 == 0 && |s| <= |r| < |s| + 4
    ensures r[..|s|] == s
    ensures forall i :: |s| <= i < |r| ==> r[i] == '='
    ensures forall m :: |s| <= m && m % 4 == 0 ==> |r| <= m
  {
    var r := s + Padding((4 - |s| % 4) % 4);
    assert r[..|s|] == s;
    r
  }

  /** Text whose length is already a multiple of four is not padded. */
  lemma RepadPadded(s: string)
    requires |s| % 4 == 0
    ensures Repad(s) == s
  {
    assert Repad(s)[..|s|] == s;
  }

  /** `replace(/-/g, '+').replace(/_/g, '/')`: base64url alphabet to standard base64. */
  function ToStandard(s: string): (r: string)
    ensures |r| == |s|
  {
    ReplaceChar(ReplaceChar(s, '-', '+'), '_', '/')
  }

  /** The alphabet map undoes the build side's `urlsafe_b64encode` on standard base64 text. */
  lemma ToStandardInvertsUrlSafe(x: string)
    requires IsPaddedBase64(x)
    ensures ToStandard(UrlSafe(x)) == x
  {
    var u := UrlSafe(x);
    var a := ReplaceChar(u, '-', '+');
    var r := ToStandard(u);
    forall i | 0 <= i < |x| ensures r[i] == x[i] {
      assert IsBase64Char(x[i]);
      assert u[i] == (if x[i] == '/' then '_' else if x[i] == '+' then '-' else x[i]);
      assert a[i] == (if u[i] == '-' then '+' else u[i]);
    }
  }

  /** `slice(0, 12)` and `slice(12)`: the nonce and the cipher output. Short input is tolerated. */
  function SplitNonce(data: seq<byte>): (r: (seq<byte>, seq<byte>))
    ensures r.0 + r.1 == data
    ensures |r.0| == if |data| < ClientNonceLength then |data| else ClientNonceLength
  {
    if |data| < ClientNonceLength then (data, [])
    else (data[..ClientNonceLength], data[ClientNonceLength..])
  }

  /** Splitting inverts `nonce + ciphertext`. */
  lemma SplitNonceJoin(nonce: Nonce, ciphertext: seq<byte>)
    ensures SplitNonce(nonce + ciphertext) == (nonce, ciphertext)
  {
    var d := nonce + ciphertext;
    assert d[..12] == nonce && d[12..] == ciphertext;
  }

  /**
   * `decryptUrl`: `None` when `atob` or the AES-GCM check fails (the `catch` branch, which also
   * sets the error message); otherwise the UTF-8 decoding of the plaintext.
   */
  function DecryptUrl(p: Primitives, payload: string, password: string): (r: Option<string>)
    ensures p.base64Decode(ToStandard(Repad(payload))).None? ==> r.None?
  {
    match p.base64Decode(ToStandard(Repad(payload)))
    case None => None
    case Some(data) =>
      var (nonce, ciphertext) := SplitNonce(data);
      match p.open(DeriveClientKey(p, password), nonce, ciphertext)
      case None => None
      case Some(plain) => Some(p.utf8Decode(plain))
  }

  /**
   * Decrypting what `encrypt_url` produced under the same password gives back the URL, unless
   * the URL starts with a byte order mark, which the dialog's `TextDecoder` drops.
   */
  lemma DecryptEncrypt(p: Primitives, url: string, password: string, nonce: Nonce)
    requires Sound(p) && NoLeadingBom(url)
    ensures DecryptUrl(p, EncryptUrl(p, url, GenerateKey(p, password), nonce), password) == Some(url)
  {
    var key := GenerateKey(p, password);
    var ciphertext := p.seal(key, nonce, p.utf8Encode(url));
    var std := p.base64Encode(nonce + ciphertext);
    var payload := EncryptUrl(p, url, key, nonce);
    assert payload == UrlSafe(std);
    RepadPadded(payload);
    ToStandardInvertsUrlSafe(std);
    assert p.base64Decode(ToStandard(Repad(payload))) == Some(nonce + ciphertext);
    SplitNonceJoin(nonce, ciphertext);
    SameKey(p, password);
  }

  /** Every URL the build locks, in either pass, starts with its scheme, so not with a byte order mark. */
  lemma LockedUrlNoBom(url: string)
    ensures Lockable(url) || IsInnerUrl(url) ==> NoLeadingBom(url)
  {
    if Lockable(url) || IsInnerUrl(url) {
      assert url[0] == url[..7][0];
    }
  }

  const Prefix: string := "encrypted:"

  /**
   * The payload `handleDecrypt` hands to `decryptUrl`: the trimmed second piece of
   * `split('encrypted:')` when the input contains the prefix, else the trimmed input.
   */
  function ExtractPayload(input: string): string {
    if Contains(input, Prefix) then Trim(Split(input, Prefix)[1]) else Trim(input)
  }

  /** The payload is the trimmed text between the first `encrypted:` and the next one (or the end). */
  lemma ExtractPayloadSpec(input: string)
    ensures IndexOf(input, Prefix).None? ==> ExtractPayload(input) == Trim(input)
    ensures IndexOf(input, Prefix).Some? ==>
      var rest := input[IndexOf(input, Prefix).value + |Prefix|..];
      ExtractPayload(input) == Trim(if IndexOf(rest, Prefix).Some? then rest[..IndexOf(rest, Prefix).value] else rest)
  {
    if IndexOf(input, Prefix).Some? {
      var k := IndexOf(input, Prefix).value;
      var rest := input[k + |Prefix|..];
      assert Split(input, Prefix) == [input[..k]] + Split(rest, Prefix);
      SplitHead(rest, Prefix);
    }
  }

  lemma TrimNoSpace(s: string)
    requires forall i :: 0 <= i < |s| ==> !IsJsSpace(s[i])
    ensures Trim(s) == s
  {
    assert TrimStart(s) == s;
    if s != [] {
      assert !IsJsSpace(s[|s| - 1]);
    }
  }

  /** Base64url text has no `:`, so the prefix cannot occur in it. */
  lemma UrlSafeHasNoPrefix(payload: string)
    requires IsUrlSafeText(payload)
    ensures IndexOf(payload, Prefix).None?
  {
    forall j ensures !OccursAt(payload, Prefix, j) {
      if 0 <= j && j + |Prefix| <= |payload| {
        assert IsUrlSafeChar(payload[j + 9]);
        assert payload[j..j + |Prefix|][9] != Prefix[9];
      }
    }
  }

  lemma PrefixFirst(payload: string)
    ensures IndexOf(Prefix + payload, Prefix) == Some(0)
    ensures (Prefix + payload)[|Prefix|..] == payload
  {
    assert OccursAt(Prefix + payload, Prefix, 0);
  }

  /** The `href` of a locked link, pasted into the dialog, yields exactly its payload. */
  lemma ExtractLockPayload(payload: string)
    requires IsUrlSafeText(payload)
    ensures ExtractPayload(Prefix + payload) == payload
  {
    var input := Prefix + payload;
    PrefixFirst(payload);
    UrlSafeHasNoPrefix(payload);
    SplitHead(payload, Prefix);
    assert Split(input, Prefix) == [input[..0]] + Split(payload, Prefix);
    assert Split(input, Prefix)[1] == payload;
    forall i | 0 <= i < |payload| ensures !IsJsSpace(payload[i]) {
      assert IsUrlSafeChar(payload[i]);
    }
    TrimNoSpace(payload);
  }

  const GuardError: string := "请输入密码和加密链接"
  const DecryptError: string := "解密失败，请检查密码和链接"

  /** The dialog's state hooks. */
  class Dialog {
    var password: string
    var currentEncryptedInput: string
    var error: string
    var isDecrypting: bool
    var decryptedUrl: string
    var showResult: bool

    /** The initial `useState` values. */
    constructor ()
      ensures password == [] && currentEncryptedInput == [] && error == []
      ensures !isDecrypting && decryptedUrl == [] && !showResult
    {
      password := [];
      currentEncryptedInput := [];
      error := [];
      isDecrypting := false;
      decryptedUrl := [];
      showResult := false;
    }

    /** The open effect: load the passed data, clear everything else the user can see. */
    method Open(encryptedData: string)
      modifies this
      ensures currentEncryptedInput == encryptedData
      ensures password == [] && error == [] && decryptedUrl == [] && !showResult
      ensures isDecrypting == old(isDecrypting)
    {
      currentEncryptedInput := encryptedData;
      password := [];
      error := [];
      decryptedUrl := [];
      showResult := false;
    }

    /** The password field's `onChange`. */
    method TypePassword(text: string)
      modifies this
      ensures password == text
      ensures currentEncryptedInput == old(currentEncryptedInput) && error == old(error)
      ensures isDecrypting == old(isDecrypting) && decryptedUrl == old(decryptedUrl) && showResult == old(showResult)
    {
      password := text;
    }

    /** The link field's `onChange`. */
    method TypeInput(text: string)
      modifies this
      ensures currentEncryptedInput == text
      ensures password == old(password) && error == old(error)
      ensures isDecrypting == old(isDecrypting) && decryptedUrl == old(decryptedUrl) && showResult == old(showResult)
    {
      currentEncryptedInput := text;
    }

    /**
     * `handleDecrypt`, in its state after the awaited call settles. An empty field only sets the
     * guard message. Otherwise the error is cleared and the busy flag ends false; a failed
     * decryption sets the failure message, and a non-empty URL is shown. An empty plaintext is
     * falsy, so it shows nothing and reports nothing.
     */
    method HandleDecrypt(p: Primitives)
      modifies this
      ensures password == old(password) && currentEncryptedInput == old(currentEncryptedInput)
      ensures old(password) == [] || old(currentEncryptedInput) == [] ==>
        error == GuardError && isDecrypting == old(isDecrypting) &&
        decryptedUrl == old(decryptedUrl) && showResult == old(showResult)
      ensures old(password) != [] && old(currentEncryptedInput) != [] ==>
        var outcome := DecryptUrl(p, ExtractPayload(old(currentEncryptedInput)), old(password));
        && !isDecrypting
        && error == (if outcome.None? then DecryptError else [])
        && (if outcome.Some? && outcome.value != []
            then decryptedUrl == outcome.value && showResult
            else decryptedUrl == old(decryptedUrl) && showResult == old(showResult))
    {
      if password == [] || currentEncryptedInput == [] {
        error := GuardError;
        return;
      }
      isDecrypting := true;
      error := [];
      var encryptedPart := ExtractPayload(currentEncryptedInput);
      var url := DecryptUrl(p, encryptedPart, password);
      if url.None? {
        error := DecryptError;
      } else if url.value != [] {
        decryptedUrl := url.value;
        showResult := true;
      }
      isDecrypting := false;
    }

    /** The timer is armed only while a non-empty URL is shown. */
    predicate TimerArmed()
      reads this
    {
      decryptedUrl != [] && showResult
    }

    /** The five-second timeout: hide the result and clear the URL and the link field. */
    method ResultTimeout()
      modifies this
      ensures old(TimerArmed()) ==> !showResult && decryptedUrl == [] && currentEncryptedInput == []
      ensures !old(TimerArmed()) ==>
        showResult == old(showResult) && decryptedUrl == old(decryptedUrl) &&
        currentEncryptedInput == old(currentEncryptedInput)
      ensures password == old(password) && error == old(error) && isDecrypting == old(isDecrypting)
      ensures !TimerArmed()
    {
      if TimerArmed() {
        showResult := false;
        decryptedUrl := [];
        currentEncryptedInput := [];
      }
    }
  }

  /**
   * End to end: a link locked at build time, opened in the dialog, unlocks to its URL when the
   * build password is typed. The build only locks URLs that start with a scheme, so none starts
   * with a byte order mark.
   */
  method UnlockLockedLink(p: Primitives, url: string, password: string, nonce: Nonce)
    returns (shown: string, visible: bool, message: string)
    requires Sound(p) && url != [] && NoLeadingBom(url) && password != []
    ensures shown == url && visible && message == []
  {
    var payload := EncryptUrl(p, url, GenerateKey(p, password), nonce);
    var dialog := new Dialog();
    dialog.Open(Prefix + payload);
    dialog.TypePassword(password);
    ExtractLockPayload(payload);
    DecryptEncrypt(p, url, password, nonce);
    dialog.HandleDecrypt(p);
    shown, visible, message := dialog.decryptedUrl, dialog.showResult, dialog.error;
  }
}
