# Local-IPC rich-presence client, modelled in Dafny

This project models the protocol engine of a desktop rich-presence client, `src-tauri/src/discord_rpc.rs`. The client connects to the chat client's local Unix-domain socket with bounded retry, performs the version-1 handshake, and pushes `SET_ACTIVITY` updates. Every message is a frame: a little-endian `u32` opcode, a little-endian `u32` payload length, then the UTF-8 JSON payload.

Modules, one per component:

- `Base` (base.dfy): bytes, `u16`/`u32`/`u128`, `Option`, `Result`.
- `Utf8` (utf8.dfy): the UTF-8 encoding behind Rust's `String`. `Encode` stands for `as_bytes`. `Decode` stands for the validating conversion `read_to_string` performs. The two are proved inverse.
- `Codec` (codec.dfy): `OpCodes`, `encode_message` and `decode_message`. Each is a specification function (`EncodedFrame`, `DecodedPayload`) plus a method that builds the frame step by step (`EncodeMessage` appends to a buffer; `DecodeMessage` advances a cursor).
- `Json` (json.dfy): serde_json values and two ways to index them. The source indexes JSON only at src-tauri/src/discord_rpc.rs:94, through mutable indexing (`IndexMut`), which panics on a value that is neither an object nor null. Read-only `Index`, which yields null for anything missing, does not occur in the source. It is the primitive of the corrected lookup `Client.ReadUser` and of the contracts.
- `Presence` (presence.dfy): `Activity`, `ActivityTimestamps`, `ActivityAssets`, `Button` and `User`, with the serialisation their serde attributes give them. A reference reader reads the serialised objects back and fills a missing member with the field's default. This reader is not serde's: `Activity`'s derived `Deserialize` has no `#[serde(default)]` and rejects an object with an omitted member. So the round trips below check what serialisation writes; they are not a round trip through serde.
- `SocketPath` (socket_path.dfy): `get_socket_path` as a pure function of the three environment candidates.
- `Client` (client.dfy): the `DiscordRpcClient` class, whose fields are `socket` and `handshakeDone`. It has the retry loop `TryConnecting`, `Handshake` and `SetActivity`. The outcome of each connect attempt is an input. So are the socket's behaviour during an exchange (readiness, write, the one read of at most 2048 bytes), serde_json's rendering and parsing, the nonce and the process id. `Client.Session` drives one client through a whole session and checks it against these contracts. First it sends an update, which is refused before the handshake. It then connects on the third attempt and sends an update that is still refused. Then the handshake succeeds and an update goes through. Finally an update whose start time is 2^64 panics; these last two updates are in `Client.UpdatesAfterHandshake`.

The class invariant `Valid()` says the handshake flag is only set while a socket is open. Under it, `set_activity`'s "socket not connected" branch is unreachable.

Behaviour of the code a reader may not expect, all of which the model follows. The one place the model departs from the code is the handshake's lookup of `data.user`, which can panic in the source; `Handshake` uses the corrected lookup instead (see "## Findings").

- `try_connecting` always returns `Ok(())`, even when the bound is reached or another error occurs. There is no "exhausted" or fatal result; the only trace is that the socket stays absent.
- A bound of `N` gives `max(N, 1)` attempts. The counter is incremented before it is compared, so a bound of 0 still makes one attempt.
- `handshake_done` is never reset. A socket, once open, is never dropped, not even after an I/O error.
- `Activity` has no `party`. More than two buttons are dropped silently.
- `timestamps` and `assets` are always written, as `{}` when empty. In the model's JSON value for the default activity these are the only two members, both empty objects, listed in struct field order. serde_json's own `Map` (a `BTreeMap` under its default features) holds them sorted, `assets` first. Member order is left to serde_json's rendering (see "## Left out").
- `set_activity` panics when a timestamp is above `u64::MAX`: `json!` converts the activity with `to_value(..).unwrap()`, and serde_json's value serializer rejects such a `u128`. The model makes this a `Panicked` outcome.

## Model

| member | source | states |
|---|---|---|
| `Utf8.EncodeScalar` | src-tauri/src/discord_rpc.rs:136 | every scalar value takes 1 to 4 bytes in a payload's `as_bytes` |
| `Utf8.Encode` | src-tauri/src/discord_rpc.rs:136 | a payload's `as_bytes` is empty exactly when the payload is empty; its relation to `Decode` is stated below |
| `Utf8.Decode` | src-tauri/src/discord_rpc.rs:145 | the validating conversion of `read_to_string`, scalar value by scalar value (definition only; its properties are the lemmas below) |
| `Utf8.DecodeScalarOfEncoded` | src-tauri/src/discord_rpc.rs:145 | the bytes of one scalar value, whatever follows them, decode to that value and consume exactly those bytes |
| `Utf8.EncodedOfDecodeScalar` | src-tauri/src/discord_rpc.rs:145 | whatever the decoder accepts as one scalar value is exactly that value's encoding |
| `Utf8.DecodeEncode` | src-tauri/src/discord_rpc.rs:136-145 | the UTF-8 bytes of any string decode back to that string |
| `Utf8.EncodeDecode` | src-tauri/src/discord_rpc.rs:145 | decoding succeeds only on the bytes of the string it returns |
| `Utf8.DecodeIffEncode` | src-tauri/src/discord_rpc.rs:136-145 | bytes decode to a string if and only if they are that string's UTF-8 bytes |
| `Utf8.EncodedLength` | src-tauri/src/discord_rpc.rs:134 | the payload length the header carries is between 1 and 4 bytes per scalar value |
| `Codec.OpCodeValue` | src-tauri/src/discord_rpc.rs:150-153 | the opcode values are below 2, and 0 exactly for Handshake, so Frame is 1 |
| `Codec.U32Le` | src-tauri/src/discord_rpc.rs:132-134 | `write_u32_le` writes exactly four bytes |
| `Codec.ReadU32Le` | src-tauri/src/discord_rpc.rs:143-144 | `read_u32_le`, least significant byte first (definition only; `ReadWrittenU32` and `WriteReadU32` relate it to `U32Le`) |
| `Codec.ReadWrittenU32` | src-tauri/src/discord_rpc.rs:132-134 | a `u32` written little-endian reads back as itself |
| `Codec.WriteReadU32` | src-tauri/src/discord_rpc.rs:143-144 | every 4-byte word is the little-endian encoding of the number read from it |
| `Codec.EncodedFrame` | src-tauri/src/discord_rpc.rs:130-138 | encoding fails (PayloadTooLong) exactly when the payload's byte length exceeds `u32::MAX`; otherwise the frame is 8 + byte-length bytes, its first word reads as the opcode, its second as the byte length, and the payload bytes follow unchanged |
| `Codec.DecodedPayload` | src-tauri/src/discord_rpc.rs:140-147 | decoding fails with UnexpectedEof below 8 bytes; otherwise it succeeds exactly when the bytes after the header are valid UTF-8, and the text's bytes are exactly those bytes |
| `Codec.DecodeEncodedFrame` | src-tauri/src/discord_rpc.rs:130-147 | decoding an encoded frame gives the payload back, for either opcode |
| `Codec.HeaderWordsIgnored` | src-tauri/src/discord_rpc.rs:143-145 | any opcode word and any declared length, true or false, in front of a payload's bytes decode to that payload |
| `Codec.OpCodesDistinguishFrames` | src-tauri/src/discord_rpc.rs:132 | handshake and command frames of one payload differ only in the first byte, 0 versus 1 |
| `Codec.EncodeMessage` | src-tauri/src/discord_rpc.rs:130-138 | building the frame by appending opcode word, length word and payload to a buffer yields `EncodedFrame` |
| `Codec.DecodeMessage` | src-tauri/src/discord_rpc.rs:140-147 | advancing a cursor over the two header words and reading the rest as a string yields `DecodedPayload` |
| `Json.LookupAppend` | src-tauri/src/discord_rpc.rs:164-174 | a member lookup in a concatenation of member runs finds the first run's member if it has one, else the second's |
| `Json.Index` | src-tauri/src/discord_rpc.rs:92-94 | read-only indexing, which the source does not use: an object's first member under the key, and null for a missing key or a value that is not an object. It is the indexing of the corrected lookup `Client.ReadUser` (see "## Findings") |
| `Json.IndexMut` | src-tauri/src/discord_rpc.rs:94 | mutable indexing panics exactly on values that are neither an object nor null |
| `Json.IndexMutAgreesWithIndex` | src-tauri/src/discord_rpc.rs:94 | where mutable indexing returns, it returns what read-only indexing does |
| `Presence.ButtonsJson` | src-tauri/src/discord_rpc.rs:202-206 | the button list is written element by element, one object per button |
| `Presence.SkipTimestamp` | src-tauri/src/discord_rpc.rs:184-188 | `ActivityTimestamps::do_skip`: a zero timestamp is skipped (definition only; its effect is `TimestampMembers`) |
| `Presence.SkipButtons` | src-tauri/src/discord_rpc.rs:208-211 | `Button::do_skip`: an empty list, or one of more than two buttons, is skipped (definition only; its effect is `ActivityMembers`) |
| `Presence.TimestampsJson` | src-tauri/src/discord_rpc.rs:176-188 | the timestamps object has at most two members, and is empty exactly when both timestamps are zero |
| `Presence.AssetsJson` | src-tauri/src/discord_rpc.rs:190-200 | the assets object has at most four members, and is empty exactly when every asset string is empty |
| `Presence.ActivityJson` | src-tauri/src/discord_rpc.rs:164-174 | an activity is written as an object of two to five members |
| `Presence.SerialisableActivity` | src-tauri/src/discord_rpc.rs:108-115 | `to_value` accepts an activity exactly when neither timestamp exceeds `u64::MAX` (definition only; used by `ActivityRequest`) |
| `Presence.ReadWrittenButtons` | src-tauri/src/discord_rpc.rs:202-206 | written buttons read back as the same buttons, in order |
| `Presence.ReadWrittenTimestamps` | src-tauri/src/discord_rpc.rs:176-188 | the timestamps object reads back as the timestamps written, with omitted zeros read as zero |
| `Presence.ReadWrittenAssets` | src-tauri/src/discord_rpc.rs:190-200 | the assets object reads back as the assets written, with omitted empty strings read as empty |
| `Presence.ActivityLookup` | src-tauri/src/discord_rpc.rs:164-174 | each key of an activity's object finds the field's value exactly when the field is written, and nothing is under any other key |
| `Presence.ReadWrittenActivity` | src-tauri/src/discord_rpc.rs:164-211 | serialisation loses only defaults and surplus buttons: read back by the reference reader, which fills omitted members with defaults, the written activity is itself, except that more than two buttons read back as none |
| `Presence.ActivityMembers` | src-tauri/src/discord_rpc.rs:164-174 | `state` and `details` are present exactly when non-empty, `timestamps` and `assets` always, `buttons` exactly with 1 or 2 buttons, and there is no `party` |
| `Presence.TimestampMembers` | src-tauri/src/discord_rpc.rs:176-188 | `start` and `end` are members exactly when non-zero |
| `Presence.AssetMembers` | src-tauri/src/discord_rpc.rs:190-200 | each asset string is a member exactly when non-empty |
| `Presence.DefaultActivityJson` | src-tauri/src/discord_rpc.rs:164-200 | the JSON value of the default activity has the members `timestamps` and `assets`, in struct field order, both empty objects, and nothing else |
| `Presence.WrittenUserMembers` | src-tauri/src/discord_rpc.rs:155-162 | each member of a serialised user holds that user's field |
| `Presence.UserFromJson` | src-tauri/src/discord_rpc.rs:94 | `from_value::<User>` yields a user only from an object or from an array of five elements, and such an array holds the user's fields in order |
| `Presence.ReadWrittenUser` | src-tauri/src/discord_rpc.rs:155-162 | a serialised user deserialises to itself |
| `Presence.UserFromObject` | src-tauri/src/discord_rpc.rs:94 | an object deserialises to a user only when all five members are present with that user's values |
| `Presence.ObjectWithUserMembers` | src-tauri/src/discord_rpc.rs:94 | an object holding the five members with a user's values deserialises to that user, whatever the member order and whatever other members it has |
| `Presence.ReplyUserObject` | src-tauri/src/discord_rpc.rs:94 | a user object with its members in another order and with extra members (`bot`, `global_name`) deserialises to the user |
| `Presence.NullIsNoUser` | src-tauri/src/discord_rpc.rs:94 | a missing `data.user`, read as null, is never a user |
| `SocketPath.FirstAvailable` | src-tauri/src/discord_rpc.rs:64-71 | the result is available exactly when some candidate is, and it is the first available one |
| `SocketPath.Join` | src-tauri/src/discord_rpc.rs:72 | the joined path starts with the directory and ends with the name; a separator is added exactly when the directory is non-empty and does not end in one |
| `SocketPath.SocketDir` | src-tauri/src/discord_rpc.rs:64-71 | the directory is `/tmp` or one of the three candidates, and `XDG_RUNTIME_DIR` whenever it is set |
| `SocketPath.SocketPathOf` | src-tauri/src/discord_rpc.rs:63-73 | the socket path starts with the chosen directory and ends with `discord-ipc-0` |
| `SocketPath.SocketDirIsFirstAvailable` | src-tauri/src/discord_rpc.rs:64-71 | the directory is the first available of `XDG_RUNTIME_DIR`, `TMPDIR` and the temporary directory, else `/tmp` |
| `SocketPath.FallbackSocketPath` | src-tauri/src/discord_rpc.rs:71-72 | with no candidate available the path is `/tmp/discord-ipc-0` |
| `SocketPath.EmptyRuntimeDir` | src-tauri/src/discord_rpc.rs:64-72 | an `XDG_RUNTIME_DIR` that is set but empty is still chosen, giving the relative path `discord-ipc-0` |
| `Client.AttemptsFromIsFirstStop` | src-tauri/src/discord_rpc.rs:30-58 | the loop makes n attempts exactly when attempt n−1 is the first that connects, fails with another error, or reaches the retry bound |
| `Client.Attempts` | src-tauri/src/discord_rpc.rs:30-58 | the loop makes at least one attempt and no more than there are outcomes, and exactly one when the first attempt stops it |
| `Client.BoundedRefusals` | src-tauri/src/discord_rpc.rs:39-46 | with bound N and every attempt refused or not found, exactly max(N, 1) attempts are made |
| `Client.UnboundedRetries` | src-tauri/src/discord_rpc.rs:38-51 | without a bound, attempts continue until the first outcome that is neither refused nor not found |
| `Client.OtherErrorStops` | src-tauri/src/discord_rpc.rs:52-55 | another error kind ends the loop at that attempt, without retrying, for any bound that let the loop reach it (a bound of 0 included, on the first attempt) |
| `Client.HandshakeRequest` | src-tauri/src/discord_rpc.rs:81-86 | the handshake payload carries `client_id`, `v` = 1 and the nonce |
| `Client.ActivityRequest` | src-tauri/src/discord_rpc.rs:108-116 | there is no request (the source panics) exactly when the activity is present and has a timestamp above `u64::MAX`; otherwise the payload carries `cmd` = `SET_ACTIVITY`, `args.pid`, `args.activity` (the serialised activity, or null) and the nonce |
| `Client.ReadUser` | src-tauri/src/discord_rpc.rs:91-94 | a user is returned exactly when the reply frame decodes, parses, and has a user at `data.user`, and it is that user |
| `Client.ReadUserAsWritten` | src-tauri/src/discord_rpc.rs:92-94 | the source's lookup through mutable indexing, which can panic (definition only; `ReadUserCorrectsPanic` says exactly when) |
| `Client.ReadUserCorrectsPanic` | src-tauri/src/discord_rpc.rs:92-94 | the source's lookup agrees with `ReadUser` wherever it returns; it panics exactly when the reply or its `data` is neither an object nor null, and there `ReadUser` reports NoUser |
| `Client.NonObjectDataPanics` | src-tauri/src/discord_rpc.rs:94 | a reply `{"data":"x"}` panics the source's handshake, while the corrected lookup reports NoUser |
| `Client.HandshakeReplyYieldsUser` | src-tauri/src/discord_rpc.rs:90-96 | a reply frame whose `data.user` is `{id "1", username "a", discriminator "0", avatar "", flags 0}` yields that user |
| `Client.DiscordRpcClient.constructor` | src-tauri/src/discord_rpc.rs:15-19 | a new client has no socket and no handshake |
| `Client.DiscordRpcClient.TryConnecting` | src-tauri/src/discord_rpc.rs:22-60 | with a socket, nothing changes; otherwise the attempts made are those `Attempts` counts, each dialling the socket path, with one sleep fewer than attempts; the socket is set exactly when the last attempt connected; the result is always Ok |
| `Client.DiscordRpcClient.Handshake` | src-tauri/src/discord_rpc.rs:75-100 | fails with NotConnected exactly when no socket is open, and then leaves the flag alone; with a socket, a failed readiness wait, write or read gives Io, and a payload too long gives PayloadTooLong; writes the encoded handshake frame; returns what `ReadUser` makes of the reply; sets the flag exactly when it returns a user. `ReadUser` is the corrected lookup: on a reply whose payload or `data` is neither an object nor null, where the source panics, it returns NoUser |
| `Client.DiscordRpcClient.SetActivity` | src-tauri/src/discord_rpc.rs:102-128 | fails with HandshakeNotCompleted exactly when the flag is off, checked before the socket; fails with NotConnected exactly when the flag is on without a socket, which a valid state rules out; panics exactly when connected, after a handshake, and `ActivityRequest` has no request; a payload too long gives PayloadTooLong, a failed write or read gives Io, and an undecodable reply gives its codec error; otherwise writes the encoded `SET_ACTIVITY` frame and returns the decoded reply text; changes nothing |

## Findings

| source | as written | input that shows it | evidently intended | confidence | as-written member | corrected member |
|---|---|---|---|---|---|---|
| src-tauri/src/discord_rpc.rs:92-94 | `recv_payload["data"]["user"].take()` indexes a `&mut Value`, and serde_json's mutable indexing panics on a value that is neither an object nor null | a handshake reply whose payload is `{"data":"x"}` (or any JSON array, string, number or boolean) | a reply without a well-formed `data.user` fails the handshake with an error, like a missing `data.user` does | high, not executed | `Client.ReadUserAsWritten`, shown by `Client.NonObjectDataPanics` | `Client.ReadUser`, proved by `Client.ReadUserCorrectsPanic` and used by `Client.DiscordRpcClient.Handshake` |

## Left out

- Asynchronous socket I/O (`ready`, `split`, `write_all`, the single `read` into a 2048-byte buffer) is not modelled as I/O. Each exchange takes its outcome as an input: readiness, write success, and the bytes read (at most 2048, or a failed read). Blocking and suspension are not modelled.
- Sleeping in the retry loop: sleeps are counted, but `reconnect_timeout` and durations are not modelled.
- Client.DiscordRpcClient.TryConnecting: the outcomes are a finite input that must cover every attempt the loop makes. An endless run of refusals with no bound, on which the source loops forever, is therefore not modelled.
- Client.DiscordRpcClient.TryConnecting: `reconnect_trials` is a `u32` in the source and is counted without bound here. Without a retry bound, the source's counter overflows after 2^32−1 consecutive refusals; that case is not modelled.
- Client.DiscordRpcClient.TryConnecting: the source re-reads the environment before every attempt. The model resolves the path from one environment for all attempts.
- serde_json's text rendering (`Value::to_string`) and parsing (`from_str`) are parameters `render` and `parse`. The member order that rendering gives a `json!` object (sorted, with serde_json's default map) is therefore part of `render`. JSON text escaping is not modelled.
- Presence.UserFromJson: JSON numbers are integers here, so a user's `flags` given as a float is not modelled. A `parse` that stands for `from_str` returns objects without duplicate keys, since serde_json's map insert keeps the last duplicate. `Lookup`'s first-wins rule therefore only matters for objects `from_str` could not produce.
- Nonce generation (`Uuid::new_v4`) and `process::id()` are parameters.
- Logging (`tracing`) and `println!` are not modelled.
- Error messages are collapsed into `ClientError` variants. Every I/O error that `?` converts is the single variant `Io`.
- Only the Unix build (`#[cfg(unix)]`) is modelled.
- src-tauri/Cargo.toml is not part of this model. serde_json is taken with its default features, so `arbitrary_precision` is off and a `u128` above `u64::MAX` cannot become a JSON value.
- src-tauri/src/main.rs (command wiring, the `Mutex` around the client, logger setup), src-tauri/src/system_tray.rs and src-tauri/src/window.rs (tray and window glue), vite.config.ts and src/types.d.ts (front-end build configuration and type declarations) are not part of this model.
