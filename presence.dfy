/**
 * The presence payload (`Activity`, `ActivityTimestamps`, `ActivityAssets`,
 * `Button`) and the authenticated `User`, with the serialisation rules
 * their serde attributes give them.
 *
 * An `Activity` is serialised as an object whose members follow the struct's
 * field order. Empty strings and zero timestamps are left out; `timestamps`
 * and `assets` are always written, possibly as empty objects; `buttons` is
 * written only when it holds one or two buttons. There is no `party` field.
 */
module Presence {
  import opened Base
  import opened Json

  datatype ActivityTimestamps = ActivityTimestamps(start: u128, end: u128)

  datatype ActivityAssets = ActivityAssets(
    largeImage: string, largeText: string, smallImage: string, smallText: string)

  datatype Button = Button(labelText: string, url: string)  // `label` is a Dafny keyword

  datatype Activity = Activity(
    state: string,
    details: string,
    timestamps: ActivityTimestamps,
    assets: ActivityAssets,
    buttons: seq<Button>)

  /** `Activity::default()`: every string empty, every timestamp zero, no buttons. */
  const DefaultActivity: Activity :=
    Activity("", "", ActivityTimestamps(0, 0), ActivityAssets("", "", "", ""), [])

  /** `ActivityTimestamps::do_skip`: a zero timestamp is not written. */
  predicate SkipTimestamp(t: u128) {
    t == 0
  }

  /** `Button::do_skip`: no buttons, or more than the two allowed, are not written. */
  predicate SkipButtons(buttons: seq<Button>) {
    |buttons| == 0 || |buttons| > 2
  }

  /** A string field under `skip_serializing_if = "String::is_empty"`. */
  function StringMember(key: string, value: string): seq<(string, Json)> {
    if value == "" then [] else [(key, JStr(value))]
  }

  /** A timestamp field under `skip_serializing_if = "ActivityTimestamps::do_skip"`. */
  function TimestampMember(key: string, t: u128): seq<(string, Json)> {
    if SkipTimestamp(t) then [] else [(key, JNum(t))]
  }

  /** The timestamps object: at most the two members, and empty exactly when both timestamps are zero. */
  function TimestampsJson(t: ActivityTimestamps): (j: Json)
    ensures j.JObj? && |j.members| <= 2
    ensures j.members == [] <==> t.start == 0 && t.end == 0
  {
    JObj(TimestampMember("start", t.start) + TimestampMember("end", t.end))
  }

  /** The assets object: at most the four members, and empty exactly when every asset string is empty. */
  function AssetsJson(a: ActivityAssets): (j: Json)
    ensures j.JObj? && |j.members| <= 4
    ensures j.members == [] <==> a == ActivityAssets("", "", "", "")
  {
    JObj(StringMember("large_image", a.largeImage) + StringMember("large_text", a.largeText)
      + StringMember("small_image", a.smallImage) + StringMember("small_text", a.smallText))
  }

  function ButtonJson(b: Button): Json {
    JObj([("label", JStr(b.labelText)), ("url", JStr(b.url))])
  }

  function ButtonsJson(buttons: seq<Button>): (items: seq<Json>)
    ensures |items| == |buttons|
    ensures forall i :: 0 <= i < |buttons| ==> items[i] == ButtonJson(buttons[i])
  {
    if buttons == [] then [] else [ButtonJson(buttons[0])] + ButtonsJson(buttons[1..])
  }

  /**
   * The JSON object serde writes for an activity, members in struct field
   * order: at least `timestamps` and `assets`, at most all five fields.
   */
  function ActivityJson(a: Activity): (j: Json)
    ensures j.JObj? && 2 <= |j.members| <= 5
  {
    JObj(StringMember("state", a.state) + StringMember("details", a.details)
      + [("timestamps", TimestampsJson(a.timestamps)), ("assets", AssetsJson(a.assets))]
      + (if SkipButtons(a.buttons) then [] else [("buttons", JArr(ButtonsJson(a.buttons)))]))
  }

  // Reading an activity back. A member that is missing, or is not of the
  // field's type, reads as the field's default value; this reader is the
  // reference against which the serialisation is checked.

  function StringField(j: Json, key: string): string {
    match Index(j, key)
    case JStr(s) => s
    case _ => ""
  }

  function TimestampField(j: Json, key: string): u128 {
    match Index(j, key)
    case JNum(n) => if 0 <= n < 0x1_0000_0000_0000_0000_0000_0000_0000_0000 then n else 0
    case _ => 0
  }

  function ReadButtons(items: seq<Json>): (buttons: seq<Button>)
    ensures |buttons| == |items|
  {
    if items == [] then []
    else [Button(StringField(items[0], "label"), StringField(items[0], "url"))] + ReadButtons(items[1..])
  }

  function ReadActivity(j: Json): Activity {
    var t := Index(j, "timestamps");
    var a := Index(j, "assets");
    Activity(
      StringField(j, "state"),
      StringField(j, "details"),
      ActivityTimestamps(TimestampField(t, "start"), TimestampField(t, "end")),
      ActivityAssets(StringField(a, "large_image"), StringField(a, "large_text"),
                     StringField(a, "small_image"), StringField(a, "small_text")),
      match Index(j, "buttons") case JArr(items) => ReadButtons(items) case _ => [])
  }

  /**
   * Whether `to_value` accepts the activity: serde_json's value serializer,
   * without its `arbitrary_precision` feature, rejects a `u128` above
   * `u64::MAX`, and a zero timestamp is skipped before it gets there.
   */
  predicate SerialisableActivity(a: Activity) {
    a.timestamps.start <= U64Max && a.timestamps.end <= U64Max
  }

  /** The buttons an activity keeps on the wire: all of them, unless there are more than two. */
  function WrittenButtons(buttons: seq<Button>): seq<Button> {
    if |buttons| > 2 then [] else buttons
  }

  /** Buttons survive being written and read back. */
  lemma {:induction false} ReadWrittenButtons(buttons: seq<Button>)
    ensures ReadButtons(ButtonsJson(buttons)) == buttons
  {
    if buttons != [] {
      var b := buttons[0];
      assert ButtonsJson(buttons)[1..] == ButtonsJson(buttons[1..]);
      assert Lookup(ButtonJson(b).members, "label") == Some(JStr(b.labelText));
      assert Lookup(ButtonJson(b).members, "url") == Some(JStr(b.url));
      ReadWrittenButtons(buttons[1..]);
    }
  }

  /** The timestamps object reads back as the timestamps written. */
  lemma ReadWrittenTimestamps(t: ActivityTimestamps)
    ensures TimestampField(TimestampsJson(t), "start") == t.start
    ensures TimestampField(TimestampsJson(t), "end") == t.end
  {
    LookupAppend(TimestampMember("start", t.start), TimestampMember("end", t.end), "start");
    LookupAppend(TimestampMember("start", t.start), TimestampMember("end", t.end), "end");
  }

  /** The value a string member holds under its own key, and nothing under another key. */
  lemma LookupStringMember(key: string, value: string, k: string)
    ensures Lookup(StringMember(key, value), k) == if key == k && value != "" then Some(JStr(value)) else None
  {
  }

  /** A string field read from a run of members where only one run can hold its key. */
  lemma StringFieldOfRuns(m1: seq<(string, Json)>, m2: seq<(string, Json)>, m3: seq<(string, Json)>,
                          m4: seq<(string, Json)>, key: string, value: string)
    requires FirstOf(Lookup(m1, key), FirstOf(Lookup(m2, key), FirstOf(Lookup(m3, key), Lookup(m4, key))))
          == Lookup(StringMember(key, value), key)
    ensures StringField(JObj(m1 + m2 + m3 + m4), key) == value
  {
    LookupAppend4(m1, m2, m3, m4, key);
  }

  /** The assets object reads back as the assets written. */
  lemma ReadWrittenAssets(a: ActivityAssets)
    ensures StringField(AssetsJson(a), "large_image") == a.largeImage
    ensures StringField(AssetsJson(a), "large_text") == a.largeText
    ensures StringField(AssetsJson(a), "small_image") == a.smallImage
    ensures StringField(AssetsJson(a), "small_text") == a.smallText
  {
    var k1, k2, k3, k4 := "large_image", "large_text", "small_image", "small_text";
    var m1, m2 := StringMember(k1, a.largeImage), StringMember(k2, a.largeText);
    var m3, m4 := StringMember(k3, a.smallImage), StringMember(k4, a.smallText);
    assert k1 != k2 && k1 != k3 && k1 != k4 && k2 != k3 && k2 != k4 && k3 != k4 by {
      assert k1[0] != k3[0] && k2[0] != k4[0] && |k1| != |k2| && |k1| != |k4| && |k2| != |k3| && |k3| != |k4|;
    }
    LookupStringMember(k1, a.largeImage, k1);
    LookupStringMember(k1, a.largeImage, k2);
    LookupStringMember(k1, a.largeImage, k3);
    LookupStringMember(k1, a.largeImage, k4);
    LookupStringMember(k2, a.largeText, k1);
    LookupStringMember(k2, a.largeText, k2);
    LookupStringMember(k2, a.largeText, k3);
    LookupStringMember(k2, a.largeText, k4);
    LookupStringMember(k3, a.smallImage, k1);
    LookupStringMember(k3, a.smallImage, k2);
    LookupStringMember(k3, a.smallImage, k3);
    LookupStringMember(k3, a.smallImage, k4);
    LookupStringMember(k4, a.smallText, k1);
    LookupStringMember(k4, a.smallText, k2);
    LookupStringMember(k4, a.smallText, k3);
    LookupStringMember(k4, a.smallText, k4);
    StringFieldOfRuns(m1, m2, m3, m4, k1, a.largeImage);
    StringFieldOfRuns(m1, m2, m3, m4, k2, a.largeText);
    StringFieldOfRuns(m1, m2, m3, m4, k3, a.smallImage);
    StringFieldOfRuns(m1, m2, m3, m4, k4, a.smallText);
  }

  /** What each key finds in an activity's object. */
  lemma ActivityLookup(a: Activity, key: string)
    ensures Lookup(ActivityJson(a).members, key)
         == if key == "state" && a.state != "" then Some(JStr(a.state))
            else if key == "details" && a.details != "" then Some(JStr(a.details))
            else if key == "timestamps" then Some(TimestampsJson(a.timestamps))
            else if key == "assets" then Some(AssetsJson(a.assets))
            else if key == "buttons" && !SkipButtons(a.buttons) then Some(JArr(ButtonsJson(a.buttons)))
            else None
  {
    var m3 := [("timestamps", TimestampsJson(a.timestamps)), ("assets", AssetsJson(a.assets))];
    var m4 := if SkipButtons(a.buttons) then [] else [("buttons", JArr(ButtonsJson(a.buttons)))];
    LookupAppend4(StringMember("state", a.state), StringMember("details", a.details), m3, m4, key);
    LookupStringMember("state", a.state, key);
    LookupStringMember("details", a.details, key);
    assert Lookup(m3, key) == if key == "timestamps" then Some(m3[0].1) else Lookup(m3[1..], key);
    assert Lookup(m3[1..], key) == if key == "assets" then Some(m3[1].1) else None;
    assert Lookup(m4, key) == if key == "buttons" && m4 != [] then Some(m4[0].1) else None;
    assert "state" != "details" && "state" != "timestamps" && "state" != "assets" && "state" != "buttons";
    assert "details" != "timestamps" && "details" != "assets" && "details"[0] != "buttons"[0];
  }

  /**
   * Serialisation loses nothing but defaults and surplus buttons: reading
   * the written object back gives the activity itself, except that a list
   * of more than two buttons comes back empty.
   */
  lemma ReadWrittenActivity(a: Activity)
    ensures ReadActivity(ActivityJson(a)) == a.(buttons := WrittenButtons(a.buttons))
  {
    ActivityLookup(a, "state");
    ActivityLookup(a, "details");
    ActivityLookup(a, "timestamps");
    ActivityLookup(a, "assets");
    ActivityLookup(a, "buttons");
    ReadWrittenTimestamps(a.timestamps);
    ReadWrittenAssets(a.assets);
    ReadWrittenButtons(a.buttons);
  }

  /**
   * Which members an activity's object has: `state` and `details` exactly
   * when non-empty, `timestamps` and `assets` always, `buttons` exactly when
   * there are one or two buttons, and no `party`.
   */
  lemma ActivityMembers(a: Activity)
    ensures Lookup(ActivityJson(a).members, "state").Some? <==> a.state != ""
    ensures Lookup(ActivityJson(a).members, "details").Some? <==> a.details != ""
    ensures Lookup(ActivityJson(a).members, "timestamps") == Some(TimestampsJson(a.timestamps))
    ensures Lookup(ActivityJson(a).members, "assets") == Some(AssetsJson(a.assets))
    ensures Lookup(ActivityJson(a).members, "buttons").Some? <==> 1 <= |a.buttons| <= 2
    ensures Lookup(ActivityJson(a).members, "party").None?
  {
    ActivityLookup(a, "state");
    ActivityLookup(a, "details");
    ActivityLookup(a, "timestamps");
    ActivityLookup(a, "assets");
    ActivityLookup(a, "buttons");
    ActivityLookup(a, "party");
    assert "details"[0] != "buttons"[0];
  }

  /** Each timestamp is a member of the timestamps object exactly when it is non-zero. */
  lemma TimestampMembers(t: ActivityTimestamps)
    ensures Lookup(TimestampsJson(t).members, "start").Some? <==> t.start != 0
    ensures Lookup(TimestampsJson(t).members, "end").Some? <==> t.end != 0
  {
    LookupAppend(TimestampMember("start", t.start), TimestampMember("end", t.end), "start");
    LookupAppend(TimestampMember("start", t.start), TimestampMember("end", t.end), "end");
  }

  /** Each asset string is a member of the assets object exactly when it is non-empty. */
  lemma AssetMembers(a: ActivityAssets)
    ensures Lookup(AssetsJson(a).members, "large_image").Some? <==> a.largeImage != ""
    ensures Lookup(AssetsJson(a).members, "large_text").Some? <==> a.largeText != ""
    ensures Lookup(AssetsJson(a).members, "small_image").Some? <==> a.smallImage != ""
    ensures Lookup(AssetsJson(a).members, "small_text").Some? <==> a.smallText != ""
  {
    var m1, m2 := StringMember("large_image", a.largeImage), StringMember("large_text", a.largeText);
    var m3, m4 := StringMember("small_image", a.smallImage), StringMember("small_text", a.smallText);
    assert AssetsJson(a).members == m1 + m2 + m3 + m4;
    LookupAppend4(m1, m2, m3, m4, "large_image");
    LookupAppend4(m1, m2, m3, m4, "large_text");
    LookupAppend4(m1, m2, m3, m4, "small_image");
    LookupAppend4(m1, m2, m3, m4, "small_text");
  }

  /** The default activity is written as two empty objects and nothing else. */
  lemma DefaultActivityJson()
    ensures ActivityJson(DefaultActivity) == JObj([("timestamps", JObj([])), ("assets", JObj([]))])
  {
  }

  /** The user object a handshake reply carries (`User`). */
  datatype User = User(id: string, username: string, discriminator: string, avatar: string, flags: u16)

  /** The JSON object serde writes for a user. */
  function UserJson(u: User): Json {
    JObj([("id", JStr(u.id)), ("username", JStr(u.username)), ("discriminator", JStr(u.discriminator)),
          ("avatar", JStr(u.avatar)), ("flags", JNum(u.flags))])
  }

  function AsString(j: Json): Option<string> {
    if j.JStr? then Some(j.s) else None
  }

  function AsU16(j: Json): Option<u16> {
    if j.JNum? && 0 <= j.n < 0x1_0000 then Some(j.n) else None
  }

  /** The five values, when each has its field's type. */
  function UserOf(id: Json, username: Json, discriminator: Json, avatar: Json, flags: Json): Option<User> {
    if AsString(id).Some? && AsString(username).Some? && AsString(discriminator).Some?
       && AsString(avatar).Some? && AsU16(flags).Some?
    then Some(User(id.s, username.s, discriminator.s, avatar.s, flags.n))
    else None
  }

  /**
   * `from_value::<User>`: an object with all five members (others are
   * ignored), or an array of exactly five elements in field order, each of
   * its field's type; anything else is an error.
   */
  function UserFromJson(j: Json): (r: Option<User>)
    ensures r.Some? ==> j.JObj? || (j.JArr? && |j.items| == 5)
    ensures r.Some? && j.JArr? ==> j.items == [JStr(r.value.id), JStr(r.value.username),
      JStr(r.value.discriminator), JStr(r.value.avatar), JNum(r.value.flags)]
  {
    match j
    case JObj(members) => UserFromMembers(members)
    case JArr(items) =>
      if |items| == 5 then UserOf(items[0], items[1], items[2], items[3], items[4]) else None
    case _ => None
  }

  /** The object form of `UserFromJson`. */
  function UserFromMembers(members: seq<(string, Json)>): Option<User> {
    var id, username := Lookup(members, "id"), Lookup(members, "username");
    var discriminator, avatar, flags := Lookup(members, "discriminator"), Lookup(members, "avatar"), Lookup(members, "flags");
    if id.Some? && username.Some? && discriminator.Some? && avatar.Some? && flags.Some?
    then UserOf(id.value, username.value, discriminator.value, avatar.value, flags.value)
    else None
  }

  /** Each member of a written user holds that user's value. */
  lemma WrittenUserMembers(u: User)
    ensures Lookup(UserJson(u).members, "id") == Some(JStr(u.id))
    ensures Lookup(UserJson(u).members, "username") == Some(JStr(u.username))
    ensures Lookup(UserJson(u).members, "discriminator") == Some(JStr(u.discriminator))
    ensures Lookup(UserJson(u).members, "avatar") == Some(JStr(u.avatar))
    ensures Lookup(UserJson(u).members, "flags") == Some(JNum(u.flags))
  {
    var m := UserJson(u).members;
    assert Lookup(m, "username") == Lookup(m[1..], "username");
    assert Lookup(m, "discriminator") == Lookup(m[1..], "discriminator") == Lookup(m[2..], "discriminator");
    assert Lookup(m, "avatar") == Lookup(m[1..], "avatar") == Lookup(m[2..], "avatar") == Lookup(m[3..], "avatar");
    assert Lookup(m, "flags") == Lookup(m[1..], "flags") == Lookup(m[2..], "flags") == Lookup(m[3..], "flags")
        == Lookup(m[4..], "flags");
  }

  /** A written user reads back as itself. */
  lemma ReadWrittenUser(u: User)
    ensures UserFromJson(UserJson(u)) == Some(u)
  {
    WrittenUserMembers(u);
  }

  /** An object is read as a user only when each of the user's members is there with the user's value. */
  lemma UserFromObject(members: seq<(string, Json)>)
    requires UserFromJson(JObj(members)).Some?
    ensures var u := UserFromJson(JObj(members)).value;
      Lookup(members, "id") == Some(JStr(u.id)) && Lookup(members, "username") == Some(JStr(u.username))
      && Lookup(members, "discriminator") == Some(JStr(u.discriminator))
      && Lookup(members, "avatar") == Some(JStr(u.avatar)) && Lookup(members, "flags") == Some(JNum(u.flags))
  {
  }

  /**
   * An object holding each of a user's five members with the user's value
   * is read as that user, whatever the order of its members and whatever
   * other members it has.
   */
  lemma ObjectWithUserMembers(members: seq<(string, Json)>, u: User)
    requires Lookup(members, "id") == Some(JStr(u.id)) && Lookup(members, "username") == Some(JStr(u.username))
    requires Lookup(members, "discriminator") == Some(JStr(u.discriminator))
    requires Lookup(members, "avatar") == Some(JStr(u.avatar)) && Lookup(members, "flags") == Some(JNum(u.flags))
    ensures UserFromJson(JObj(members)) == Some(u)
  {
  }

  /**
   * A user object as a handshake reply carries it, with its members in
   * another order and with members `User` does not have (`bot`,
   * `global_name`), is read as the user.
   */
  lemma ReplyUserObject(u: User)
    ensures UserFromJson(JObj([("avatar", JStr(u.avatar)), ("bot", JBool(false)), ("discriminator", JStr(u.discriminator)),
                               ("flags", JNum(u.flags)), ("global_name", JNull), ("id", JStr(u.id)),
                               ("username", JStr(u.username))])) == Some(u)
  {
    var m := [("avatar", JStr(u.avatar)), ("bot", JBool(false)), ("discriminator", JStr(u.discriminator)),
              ("flags", JNum(u.flags)), ("global_name", JNull), ("id", JStr(u.id)), ("username", JStr(u.username))];
    assert Lookup(m, "discriminator") == Lookup(m[1..], "discriminator") == Lookup(m[2..], "discriminator");
    assert Lookup(m, "flags") == Lookup(m[1..], "flags") == Lookup(m[2..], "flags") == Lookup(m[3..], "flags");
    assert Lookup(m, "id") == Lookup(m[1..], "id") == Lookup(m[2..], "id") == Lookup(m[3..], "id")
        == Lookup(m[4..], "id") == Lookup(m[5..], "id");
    assert Lookup(m, "username") == Lookup(m[1..], "username") == Lookup(m[2..], "username") == Lookup(m[3..], "username")
        == Lookup(m[4..], "username") == Lookup(m[5..], "username") == Lookup(m[6..], "username");
    ObjectWithUserMembers(m, u);
  }

  /** Null, which is what a missing `data.user` reads as, is never a user. */
  lemma NullIsNoUser()
    ensures UserFromJson(JNull).None?
  {
  }
}
