/** internal/escore/config.go: the settings of one index. */
module Config {
  import opened Prelude
  import opened Store

  /** Search modes; any other text in a configuration is kept and later read as
      lexical. */
  datatype SearchMode = ModeUnset | ModeAuto | ModeSemantic | ModeLexical | ModeOther(text: Bytes)

  datatype IndexSettings = IndexSettings(
    timeField: Option<Bytes>,
    searchFields: seq<Bytes>,
    semanticFields: seq<Bytes>,
    grepMode: Option<SearchMode>,
    redactFields: seq<Bytes>,
    profile: Option<bool>,
    writePolicy: Option<WritePolicy>,
    deleteSync: Option<bool>)

  datatype Config = Config(
    writePolicy: WritePolicy,
    deleteSync: bool,
    timeField: Bytes,
    grepMode: SearchMode,
    redactFields: seq<Bytes>,
    profileOptOut: seq<Bytes>,
    indices: map<Bytes, IndexSettings>)

  datatype ResolvedIndex = ResolvedIndex(
    timeField: Bytes,
    searchFields: seq<Bytes>,
    semanticFields: seq<Bytes>,
    grepMode: SearchMode,
    redactFields: seq<Bytes>,
    profile: bool,
    writePolicy: WritePolicy,
    deleteSync: bool)

  const NO_SETTINGS := IndexSettings(None, [], [], None, [], None, None, None)

  function Settings(c: Config, name: Bytes): IndexSettings {
    if name in c.indices then c.indices[name] else NO_SETTINGS
  }

  function Or<T>(override: Option<T>, default: T): T {
    if override.Some? then override.value else default
  }

  /** An index setting wins over the global one; redaction adds up. */
  function Merged(c: Config, s: IndexSettings, name: Bytes): ResolvedIndex {
    ResolvedIndex(
      Or(s.timeField, c.timeField),
      s.searchFields,
      s.semanticFields,
      Or(s.grepMode, if c.grepMode == ModeUnset then ModeAuto else c.grepMode),
      c.redactFields + s.redactFields,
      Or(s.profile, name !in c.profileOptOut),
      Or(s.writePolicy, c.writePolicy),
      Or(s.deleteSync, c.deleteSync))
  }

  function Resolve(c: Config, name: Bytes): ResolvedIndex {
    Merged(c, Settings(c, name), name)
  }

  method ForIndex(c: Config, name: Bytes) returns (r: ResolvedIndex)
    ensures r == Resolve(c, name)
  {
    var timeField, grepMode, redactFields := c.timeField, c.grepMode, c.redactFields;
    var profile, writePolicy, deleteSync := name !in c.profileOptOut, c.writePolicy, c.deleteSync;
    if grepMode == ModeUnset {
      grepMode := ModeAuto;
    }
    if name !in c.indices {
      assert redactFields + [] == redactFields;
      return ResolvedIndex(timeField, [], [], grepMode, redactFields, profile, writePolicy, deleteSync);
    }
    var s := c.indices[name];
    if s.timeField.Some? {
      timeField := s.timeField.value;
    }
    if s.grepMode.Some? {
      grepMode := s.grepMode.value;
    }
    if |s.redactFields| > 0 {
      redactFields := redactFields + s.redactFields;
    }
    assert redactFields == c.redactFields + s.redactFields;
    if s.profile.Some? {
      profile := s.profile.value;
    }
    if s.writePolicy.Some? {
      writePolicy := s.writePolicy.value;
    }
    if s.deleteSync.Some? {
      deleteSync := s.deleteSync.value;
    }
    ghost var m := Merged(c, s, name);
    assert timeField == m.timeField && grepMode == m.grepMode && profile == m.profile;
    assert writePolicy == m.writePolicy && deleteSync == m.deleteSync;
    r := ResolvedIndex(timeField, s.searchFields, s.semanticFields, grepMode, redactFields,
                       profile, writePolicy, deleteSync);
    assert r == m;
  }

  // ---- which setting wins ----

  /** The configuration with these settings for one index. */
  function WithSettings(c: Config, name: Bytes, s: IndexSettings): Config {
    c.(indices := c.indices[name := s])
  }

  lemma WithSettingsIs(c: Config, name: Bytes, s: IndexSettings)
    ensures Settings(WithSettings(c, name, s), name) == s
    ensures Resolve(WithSettings(c, name, s), name) == Merged(c, s, name)
  {
  }

  /** An override of one field decides that field of that index, whatever the
      global setting, and changes no other field. */
  lemma OverrideWins(c: Config, name: Bytes, pol: WritePolicy, del: bool, time: Bytes, mode: SearchMode, prof: bool)
    ensures var s, r := Settings(c, name), Resolve(c, name);
            && Resolve(WithSettings(c, name, s.(writePolicy := Some(pol))), name) == r.(writePolicy := pol)
            && Resolve(WithSettings(c, name, s.(deleteSync := Some(del))), name) == r.(deleteSync := del)
            && Resolve(WithSettings(c, name, s.(timeField := Some(time))), name) == r.(timeField := time)
            && Resolve(WithSettings(c, name, s.(grepMode := Some(mode))), name) == r.(grepMode := mode)
            && Resolve(WithSettings(c, name, s.(profile := Some(prof))), name) == r.(profile := prof)
  {
    var s := Settings(c, name);
    WithSettingsIs(c, name, s.(writePolicy := Some(pol)));
    WithSettingsIs(c, name, s.(deleteSync := Some(del)));
    WithSettingsIs(c, name, s.(timeField := Some(time)));
    WithSettingsIs(c, name, s.(grepMode := Some(mode)));
    WithSettingsIs(c, name, s.(profile := Some(prof)));
  }

  /** The same for the three lists: search fields and semantic fields come from
      the index alone, each to its own place; redacted fields are the global ones
      followed by those of the index. */
  lemma ListsComeFromIndex(c: Config, name: Bytes, fields: seq<Bytes>)
    ensures var s, r := Settings(c, name), Resolve(c, name);
            && Resolve(WithSettings(c, name, s.(searchFields := fields)), name) == r.(searchFields := fields)
            && Resolve(WithSettings(c, name, s.(semanticFields := fields)), name) == r.(semanticFields := fields)
            && Resolve(WithSettings(c, name, s.(redactFields := fields)), name) ==
               r.(redactFields := c.redactFields + fields)
  {
    var s := Settings(c, name);
    WithSettingsIs(c, name, s.(searchFields := fields));
    WithSettingsIs(c, name, s.(semanticFields := fields));
    WithSettingsIs(c, name, s.(redactFields := fields));
  }

  /** An index without settings of its own has the global ones, and no lists but
      the global redaction. */
  lemma Unconfigured(c: Config, name: Bytes)
    requires name !in c.indices
    ensures var r := Resolve(c, name);
            && r.timeField == c.timeField && r.writePolicy == c.writePolicy && r.deleteSync == c.deleteSync
            && r.grepMode == (if c.grepMode == ModeUnset then ModeAuto else c.grepMode)
            && (r.profile <==> name !in c.profileOptOut)
            && r.searchFields == [] && r.semanticFields == [] && r.redactFields == c.redactFields
  {
  }

  /** The settings of one index concern no other. */
  lemma OverrideIsLocal(c: Config, name: Bytes, other: Bytes, s: IndexSettings)
    requires other != name
    ensures Resolve(WithSettings(c, name, s), other) == Resolve(c, other)
  {
  }

  /** A global setting reaches exactly the indices that do not override it, and
      only in its own field. */
  lemma GlobalReaches(c: Config, name: Bytes, pol: WritePolicy, del: bool, time: Bytes)
    ensures var s, r := Settings(c, name), Resolve(c, name);
            && Resolve(c.(writePolicy := pol), name) == r.(writePolicy := Or(s.writePolicy, pol))
            && Resolve(c.(deleteSync := del), name) == r.(deleteSync := Or(s.deleteSync, del))
            && Resolve(c.(timeField := time), name) == r.(timeField := Or(s.timeField, time))
    ensures Resolve(c.(deleteSync := !c.deleteSync), name) == Resolve(c, name) <==> Settings(c, name).deleteSync.Some?
  {
  }

  /** So does the global search mode, where unset means auto, and the list of
      indices that opt out of profiles. */
  lemma GlobalModeReaches(c: Config, name: Bytes, mode: SearchMode, out: seq<Bytes>)
    ensures var s, r := Settings(c, name), Resolve(c, name);
            && Resolve(c.(grepMode := mode), name) ==
               r.(grepMode := Or(s.grepMode, if mode == ModeUnset then ModeAuto else mode))
            && Resolve(c.(profileOptOut := out), name) == r.(profile := Or(s.profile, name !in out))
  {
  }

  /** Redaction only adds up: no index setting can take a globally redacted field
      out, and what an index adds stays with that index. */
  lemma RedactionGrows(c: Config, name: Bytes, f: Bytes)
    ensures f in Resolve(c, name).redactFields <==> f in c.redactFields || f in Settings(c, name).redactFields
  {
  }
}
