/** The golden list of the foreign interface, and what the check means for it. */
module Golden {
  import opened Text
  import opened Surface

  // ---------------------------------------------------------------- the list

  const BEGIN: seq<string> := ["pairing_server_begin"]

  const INVITES: seq<string> := ["pairing_invite_parse", "pairing_invite_uri", "pairing_code_random"]

  const PHRASES: seq<string> := ["pairing_code_phrase", "pairing_phone_join"]

  const DEVICE_KEYS: seq<string> := ["device_key_from_seed"]

  const ROOT_KEYS: seq<string> := ["root_key_from_seed"]

  const CERTS: seq<string> := ["device_cert_issue", "device_cert_decode"]

  const ROLES: seq<string> := ["fingerprint_of_public_key", "identity_verify", "role_word", "role_parse"]

  const RELAY: seq<string> := ["relay_session_dial", "relay_peer_parse"]

  const DIRECTORY: seq<string> := ["directory_cache_new", "presence_word"]

  const CODEC: seq<string> :=
    ["codec_protocol_version", "codec_min_version", "codec_max_frame_bytes",
     "codec_client_versions"]

  const OPERATIONS: seq<string> :=
    ["codec_negotiate", "codec_classify_op", "codec_op_name", "codec_encode"]

  const FRAMES: seq<string> :=
    ["codec_decode", "codec_encode_frame", "codec_decode_frame", "codec_frame_body_len"]

  const THEME: seq<string> := ["theme_builtin", "theme_from_tokens"]

  const COLORS: seq<string> :=
    ["color_parse", "color_quantize", "color_fg_sequence", "color_contrast_ratio"]

  const SERVER_METHODS: seq<string> := ["invite", "code", "receive", "complete", "abandon"]

  const PHONE_METHODS: seq<string> := ["await_cert"]

  const DEVICE_KEY_METHODS: seq<string> := ["public_hex", "fingerprint", "display_id", "sign"]

  const ROOT_KEY_METHODS: seq<string> := ["public_hex"]

  const CERT_METHODS: seq<string> :=
    ["device_id", "fingerprint", "name", "role", "serial", "encode", "verify"]

  const SESSION_METHODS: seq<string> :=
    ["device_id", "account", "nonce", "drain", "ack", "heartbeat", "machines", "next_peer",
     "metrics_history", "notify_act", "stream_to", "closed"]

  const PEER_METHODS: seq<string> := ["device_id", "fingerprint"]

  const STREAM_METHODS: seq<string> := ["peer", "read", "write", "close"]

  const CACHE_METHODS: seq<string> :=
    ["mirror", "as_of_ms", "len", "is_empty", "rows", "lookup", "resolve_known"]

  const THEME_METHODS: seq<string> :=
    ["name", "variant", "depth", "tokens", "color", "state_color", "state_label_color",
     "with_depth"]

  function Stemmed(stem: string, names: seq<string>): (symbols: seq<string>)
    ensures |symbols| == |names|
    ensures forall i :: 0 <= i < |names| ==> symbols[i] == NEEDLE + (stem + names[i])
  {
    seq(|names|, i requires 0 <= i < |names| => NEEDLE + (stem + names[i]))
  }

  function Functions(names: seq<string>): seq<string> { Stemmed("func_", names) }

  function Methods(owner: string, names: seq<string>): seq<string> {
    Stemmed("method_" + (owner + "_"), names)
  }

  function PairingSymbols(): seq<string> {
    Functions(BEGIN) + Methods("pairingserverhandle", SERVER_METHODS) + Functions(INVITES)
    + Functions(PHRASES) + Methods("pairingphonehandle", PHONE_METHODS)
  }

  function IdentitySymbols(): seq<string> {
    Functions(DEVICE_KEYS) + Methods("devicekeyhandle", DEVICE_KEY_METHODS) + Functions(ROOT_KEYS)
    + Methods("rootkeyhandle", ROOT_KEY_METHODS) + Functions(CERTS)
    + Methods("devicecerthandle", CERT_METHODS) + Functions(ROLES)
  }

  function RelaySymbols(): seq<string> {
    Functions(RELAY) + Methods("relaysessionhandle", SESSION_METHODS)
    + Methods("relaypeerhandle", PEER_METHODS) + Methods("relaystreamhandle", STREAM_METHODS)
    + Functions(DIRECTORY) + Methods("directorycachehandle", CACHE_METHODS)
  }

  function CodecSymbols(): seq<string> {
    Functions(CODEC) + Functions(OPERATIONS) + Functions(FRAMES)
  }

  function ThemeSymbols(): seq<string> {
    Functions(THEME) + Methods("themehandle", THEME_METHODS) + Functions(COLORS)
  }

  /** `GOLDEN_SYMBOLS` */
  function GoldenList(): seq<string> {
    PairingSymbols() + IdentitySymbols() + RelaySymbols() + CodecSymbols() + ThemeSymbols()
  }

  // ---------------------------------------------------------------- the needle, once

  const NEEDLE_LENGTH: nat := 25

  /** The only `u` of the needle is its first character, and its seventh and thirteenth are underscores. */
  lemma NeedleShape()
    ensures |NEEDLE| == NEEDLE_LENGTH && NEEDLE[0] == 'u' && NEEDLE[2] == 'i'
    ensures forall i :: 0 < i < |NEEDLE| ==> NEEDLE[i] != 'u'
    ensures NEEDLE[6] == NEEDLE[12] == '_'
  {
  }

  /** The needle occurs in the symbol at its start and nowhere else. */
  ghost predicate Once(h: string) { forall q: nat :: OccursAt(h, NEEDLE, q) ==> q == 0 }

  /** A word whose first character does not come again in it cannot overlap itself. */
  lemma SecondOccurrence(needle: string, t: string, h: string, q: nat)
    requires needle != [] && forall i :: 0 < i < |needle| ==> needle[i] != needle[0]
    requires h == needle + t && OccursAt(h, needle, q) && q > 0
    ensures |needle| <= q <= |t|
    ensures forall k :: 0 <= k < |needle| ==> t[q - |needle| + k] == needle[k]
  {
    OccursAtChars(h, needle, q);
    assert h[q] == needle[0];
    forall k | 0 <= k < |needle|
      ensures t[q - |needle| + k] == needle[k]
    {
      assert h[q + k] == needle[k];
    }
  }

  /** A second needle would lie behind the first. */
  lemma SecondNeedle(t: string, q: nat)
    requires OccursAt(NEEDLE + t, NEEDLE, q) && q > 0
    ensures NEEDLE_LENGTH <= q <= |t|
    ensures forall k :: 0 <= k < NEEDLE_LENGTH ==> t[q - NEEDLE_LENGTH + k] == NEEDLE[k]
  {
    NeedleShape();
    SecondOccurrence(NEEDLE, t, NEEDLE + t, q);
  }

  /** The name of a function is too short to hold the needle, unless it begins inside the stem. */
  lemma FunctionOnce(name: string)
    requires 0 < |name| <= 25 && name[0] != 'u'
    ensures Once(NEEDLE + ("func_" + name))
  {
    var t := "func_" + name;
    NeedleShape();
    assert t[0] == 'f' && t[2] == 'n' && t[3] == 'c' && t[4] == '_' && t[5] == name[0];
    forall q: nat | OccursAt(NEEDLE + t, NEEDLE, q)
      ensures q == 0
    {
      if q > 0 {
        SecondNeedle(t, q);
        assert false;
      }
    }
  }

  /** The name of a method is too short to hold it behind its owner, and the owner has no underscore
      where the needle would have one. */
  lemma MethodOnce(owner: string, name: string)
    requires 7 <= |owner| && '_' !in owner && |name| <= 17
    ensures Once(NEEDLE + ("method_" + (owner + "_") + name))
  {
    var t := "method_" + (owner + "_") + name;
    NeedleShape();
    assert forall i :: 7 <= i < 7 + |owner| ==> t[i] == owner[i - 7] && owner[i - 7] in owner;
    forall q: nat | OccursAt(NEEDLE + t, NEEDLE, q)
      ensures q == 0
    {
      if q > 0 {
        SecondNeedle(t, q);
        assert false;
      }
    }
  }

  // ---------------------------------------------------------------- symbol by symbol

  /** The symbol of a function, by its stem. */
  predicate IsFunction(h: string) { |h| > NEEDLE_LENGTH && h[NEEDLE_LENGTH] == 'f' }

  ghost predicate Good(h: string) {
    Once(h) && StartsWith(h, NEEDLE) && (IsFunction(h) ==> IsIdentifier(h) && Contains(h, FUNCTION))
  }

  ghost predicate AllGood(symbols: seq<string>) { forall h :: h in symbols ==> Good(h) }

  ghost predicate Brief(names: seq<string>) {
    forall i :: 0 <= i < |names| ==> 0 < |names[i]| <= 25 && names[i][0] != 'u'
  }

  ghost predicate Identifiers(names: seq<string>) { forall w :: w in names ==> IsIdentifier(w) }

  ghost predicate Short(names: seq<string>) { forall i :: 0 <= i < |names| ==> |names[i]| <= 17 }

  lemma FunctionGood(name: string)
    requires 0 < |name| <= 25 && name[0] != 'u' && IsIdentifier(name)
    ensures Good(NEEDLE + ("func_" + name))
  {
    var h := NEEDLE + ("func_" + name);
    FunctionOnce(name);
    NeedleIsIdentifier();
    assert h[0..|NEEDLE|] == NEEDLE;
    assert IsIdentifier("func_");
    assert h[NEEDLE_LENGTH - 4..NEEDLE_LENGTH + 5] == FUNCTION;
    FindIsFirst(h, FUNCTION);
    assert OccursAt(h, FUNCTION, NEEDLE_LENGTH - 4);
  }

  lemma MethodGood(owner: string, name: string)
    requires 7 <= |owner| && '_' !in owner && |name| <= 17
    ensures Good(NEEDLE + ("method_" + (owner + "_") + name))
  {
    var h := NEEDLE + ("method_" + (owner + "_") + name);
    MethodOnce(owner, name);
    NeedleShape();
    assert h[0..|NEEDLE|] == NEEDLE;
    assert h[NEEDLE_LENGTH] == 'm';
  }

  lemma FunctionsGood(names: seq<string>)
    requires Brief(names) && Identifiers(names)
    ensures AllGood(Functions(names))
  {
    var symbols := Functions(names);
    forall h | h in symbols
      ensures Good(h)
    {
      var i :| 0 <= i < |symbols| && symbols[i] == h;
      assert names[i] in names;
      FunctionGood(names[i]);
    }
  }

  lemma MethodsGood(owner: string, names: seq<string>)
    requires 7 <= |owner| && '_' !in owner && Short(names)
    ensures AllGood(Methods(owner, names))
  {
    var symbols := Methods(owner, names);
    forall h | h in symbols
      ensures Good(h)
    {
      var i :| 0 <= i < |symbols| && symbols[i] == h;
      MethodGood(owner, names[i]);
    }
  }

  // ---------------------------------------------------------------- the names of the list

  lemma BriefNames()
    ensures Brief(BEGIN) && Brief(INVITES) && Brief(PHRASES) && Brief(DEVICE_KEYS) && Brief(ROOT_KEYS)
    ensures Brief(CERTS) && Brief(ROLES) && Brief(RELAY) && Brief(DIRECTORY) && Brief(CODEC)
    ensures Brief(OPERATIONS) && Brief(FRAMES) && Brief(THEME) && Brief(COLORS)
  {
  }

  lemma BeginNames()
    ensures IsIdentifier("pairing_server_begin")
  {
  }

  lemma BeginGood()
    ensures AllGood(Functions(BEGIN))
  {
    BriefNames();
    BeginNames();
    FunctionsGood(BEGIN);
  }

  lemma InvitesNames()
    ensures IsIdentifier("pairing_invite_parse") && IsIdentifier("pairing_invite_uri")
    ensures IsIdentifier("pairing_code_random")
  {
  }

  lemma InvitesGood()
    ensures AllGood(Functions(INVITES))
  {
    BriefNames();
    InvitesNames();
    FunctionsGood(INVITES);
  }

  lemma PhrasesNames()
    ensures IsIdentifier("pairing_code_phrase") && IsIdentifier("pairing_phone_join")
  {
  }

  lemma PhrasesGood()
    ensures AllGood(Functions(PHRASES))
  {
    BriefNames();
    PhrasesNames();
    FunctionsGood(PHRASES);
  }

  lemma DeviceKeysNames()
    ensures IsIdentifier("device_key_from_seed")
  {
  }

  lemma DeviceKeysGood()
    ensures AllGood(Functions(DEVICE_KEYS))
  {
    BriefNames();
    DeviceKeysNames();
    FunctionsGood(DEVICE_KEYS);
  }

  lemma RootKeysNames()
    ensures IsIdentifier("root_key_from_seed")
  {
  }

  lemma RootKeysGood()
    ensures AllGood(Functions(ROOT_KEYS))
  {
    BriefNames();
    RootKeysNames();
    FunctionsGood(ROOT_KEYS);
  }

  lemma CertsNames()
    ensures IsIdentifier("device_cert_issue") && IsIdentifier("device_cert_decode")
  {
  }

  lemma CertsGood()
    ensures AllGood(Functions(CERTS))
  {
    BriefNames();
    CertsNames();
    FunctionsGood(CERTS);
  }

  lemma RolesNames()
    ensures IsIdentifier("fingerprint_of_public_key") && IsIdentifier("identity_verify")
    ensures IsIdentifier("role_word") && IsIdentifier("role_parse")
  {
  }

  lemma RolesGood()
    ensures AllGood(Functions(ROLES))
  {
    BriefNames();
    RolesNames();
    FunctionsGood(ROLES);
  }

  lemma RelayNames()
    ensures IsIdentifier("relay_session_dial") && IsIdentifier("relay_peer_parse")
  {
  }

  lemma RelayGood()
    ensures AllGood(Functions(RELAY))
  {
    BriefNames();
    RelayNames();
    FunctionsGood(RELAY);
  }

  lemma DirectoryNames()
    ensures IsIdentifier("directory_cache_new") && IsIdentifier("presence_word")
  {
  }

  lemma DirectoryGood()
    ensures AllGood(Functions(DIRECTORY))
  {
    BriefNames();
    DirectoryNames();
    FunctionsGood(DIRECTORY);
  }

  lemma CodecNames()
    ensures IsIdentifier("codec_protocol_version") && IsIdentifier("codec_min_version")
    ensures IsIdentifier("codec_max_frame_bytes") && IsIdentifier("codec_client_versions")
  {
  }

  lemma CodecGood()
    ensures AllGood(Functions(CODEC))
  {
    BriefNames();
    CodecNames();
    FunctionsGood(CODEC);
  }

  lemma OperationsNames()
    ensures IsIdentifier("codec_negotiate") && IsIdentifier("codec_classify_op")
    ensures IsIdentifier("codec_op_name") && IsIdentifier("codec_encode")
  {
  }

  lemma OperationsGood()
    ensures AllGood(Functions(OPERATIONS))
  {
    BriefNames();
    OperationsNames();
    FunctionsGood(OPERATIONS);
  }

  lemma FramesNames()
    ensures IsIdentifier("codec_decode") && IsIdentifier("codec_encode_frame")
    ensures IsIdentifier("codec_decode_frame") && IsIdentifier("codec_frame_body_len")
  {
  }

  lemma FramesGood()
    ensures AllGood(Functions(FRAMES))
  {
    BriefNames();
    FramesNames();
    FunctionsGood(FRAMES);
  }

  lemma ThemeNames()
    ensures IsIdentifier("theme_builtin") && IsIdentifier("theme_from_tokens")
  {
  }

  lemma ThemeGood()
    ensures AllGood(Functions(THEME))
  {
    BriefNames();
    ThemeNames();
    FunctionsGood(THEME);
  }

  lemma ColorsNames()
    ensures IsIdentifier("color_parse") && IsIdentifier("color_quantize")
    ensures IsIdentifier("color_fg_sequence") && IsIdentifier("color_contrast_ratio")
  {
  }

  lemma ColorsGood()
    ensures AllGood(Functions(COLORS))
  {
    BriefNames();
    ColorsNames();
    FunctionsGood(COLORS);
  }

  lemma ServerMethodsGood()
    ensures AllGood(Methods("pairingserverhandle", SERVER_METHODS))
  {
    MethodsGood("pairingserverhandle", SERVER_METHODS);
  }

  lemma PhoneMethodsGood()
    ensures AllGood(Methods("pairingphonehandle", PHONE_METHODS))
  {
    MethodsGood("pairingphonehandle", PHONE_METHODS);
  }

  lemma DeviceKeyMethodsGood()
    ensures AllGood(Methods("devicekeyhandle", DEVICE_KEY_METHODS))
  {
    MethodsGood("devicekeyhandle", DEVICE_KEY_METHODS);
  }

  lemma RootKeyMethodsGood()
    ensures AllGood(Methods("rootkeyhandle", ROOT_KEY_METHODS))
  {
    MethodsGood("rootkeyhandle", ROOT_KEY_METHODS);
  }

  lemma CertMethodsGood()
    ensures AllGood(Methods("devicecerthandle", CERT_METHODS))
  {
    MethodsGood("devicecerthandle", CERT_METHODS);
  }

  lemma SessionMethodsGood()
    ensures AllGood(Methods("relaysessionhandle", SESSION_METHODS))
  {
    MethodsGood("relaysessionhandle", SESSION_METHODS);
  }

  lemma PeerMethodsGood()
    ensures AllGood(Methods("relaypeerhandle", PEER_METHODS))
  {
    MethodsGood("relaypeerhandle", PEER_METHODS);
  }

  lemma StreamMethodsGood()
    ensures AllGood(Methods("relaystreamhandle", STREAM_METHODS))
  {
    MethodsGood("relaystreamhandle", STREAM_METHODS);
  }

  lemma CacheMethodsGood()
    ensures AllGood(Methods("directorycachehandle", CACHE_METHODS))
  {
    MethodsGood("directorycachehandle", CACHE_METHODS);
  }

  lemma ThemeMethodsGood()
    ensures AllGood(Methods("themehandle", THEME_METHODS))
  {
    MethodsGood("themehandle", THEME_METHODS);
  }

  lemma PairingSymbolsGood()
    ensures AllGood(PairingSymbols())
  {
    BeginGood();
    ServerMethodsGood();
    InvitesGood();
    PhrasesGood();
    PhoneMethodsGood();
  }

  lemma IdentitySymbolsGood()
    ensures AllGood(IdentitySymbols())
  {
    DeviceKeysGood();
    DeviceKeyMethodsGood();
    RootKeysGood();
    RootKeyMethodsGood();
    CertsGood();
    CertMethodsGood();
    RolesGood();
  }

  lemma RelaySymbolsGood()
    ensures AllGood(RelaySymbols())
  {
    RelayGood();
    SessionMethodsGood();
    PeerMethodsGood();
    StreamMethodsGood();
    DirectoryGood();
    CacheMethodsGood();
  }

  lemma CodecSymbolsGood()
    ensures AllGood(CodecSymbols())
  {
    CodecGood();
    OperationsGood();
    FramesGood();
  }

  lemma ThemeSymbolsGood()
    ensures AllGood(ThemeSymbols())
  {
    ThemeGood();
    ThemeMethodsGood();
    ColorsGood();
  }

  lemma GoldenListGood()
    ensures AllGood(GoldenList())
  {
    PairingSymbolsGood();
    IdentitySymbolsGood();
    RelaySymbolsGood();
    CodecSymbolsGood();
    ThemeSymbolsGood();
  }

  /** No symbol of the code's own list spells the needle again after its start. */
  lemma GoldenNeedleOnce()
    ensures NeedleOnce(GoldenList())
  {
    GoldenListGood();
  }

  /** What a passing check means for the code's own list: every golden function is generated itself, or
      is a proper prefix of a generated symbol that the list names. */
  lemma GoldenListIsGenerated(generated: string, g: string) returns (token: string)
    requires Passes(generated, GoldenList()) && g in GoldenList() && IsFunction(g)
    ensures token in Symbols(generated) && token in GoldenList()
    ensures token == g || (|g| < |token| && token[..|g|] == g)
  {
    GoldenListGood();
    GoldenNeedleOnce();
    var at;
    token, at := GoldenFunctionIsGenerated(generated, GoldenList(), g);
  }
}
