/**
  EnvironmentManager (config/env.js): the object that holds the loaded
  configuration and reads, validates, changes and saves it. The file system
  is not modelled: what reading the `.env` file yields is a parameter, and
  what saving writes is a result.
 */
module EnvManager {
  import opened Wrappers
  import opened JsString
  import opened JsObject
  import opened DotEnv

  class EnvironmentManager {
    /** `this.config`: a plain object from variable names to values. */
    var config: Object

    ghost predicate Valid()
      reads this
    {
      config.Valid()
    }

    /** `new EnvironmentManager()`: starts from `{}` and loads the file.
        `read` is the text of the file, or None when reading it throws. */
    constructor (read: Option<string>)
      ensures Valid()
      ensures config == if read.Some? then Parse(read.value) else Empty()
    {
      config := Empty();
      new;
      var _ := LoadEnv(read);
    }

    /** `loadEnv`: when the file can be read, replaces the configuration by
        the one its lines give, one line at a time, and validates it; when
        reading throws, the error is caught and nothing changes. Returns the
        warnings printed. */
    method LoadEnv(read: Option<string>) returns (warnings: seq<string>)
      requires Valid()
      modifies this
      ensures Valid()
      ensures read.Some? ==> config == Parse(read.value) && warnings == ValidateConfig()
      ensures read.None? ==> config == old(config) && warnings == []
    {
      if read.None? {
        return [];
      }
      var lines := Split(read.value, '\n');
      config := Empty();
      var i := 0;
      while i < |lines|
        invariant 0 <= i <= |lines|
        invariant config == ParseLines(lines[..i])
      {
        match ParseLine(lines[i]) {
          case Some((key, value)) =>
            config := Put(config, key, value);
          case None =>
        }
        assert lines[..i + 1][..i] == lines[..i];
        i := i + 1;
      }
      assert lines[..|lines|] == lines;
      warnings := ValidateConfig();
    }

    /** `validateConfig`: the warnings it prints, which appear exactly when
        GH_TOKEN is missing or empty. */
    function ValidateConfig(): (warnings: seq<string>)
      reads this
      ensures warnings != [] <==> !Truthy(Get("GH_TOKEN"))
    {
      Warnings(config)
    }

    /** `get(key)`. */
    function Get(key: string): Value
      reads this
    {
      Lookup(config, key)
    }

    /** `set(key, value)`: assigns the property and saves; returns the text
        that saveEnv writes. Afterwards `get(key)` is `value` (unless the key
        is `__proto__`, whose assignment is ignored) and every other key reads
        as before. */
    method Set(key: string, value: string) returns (written: string)
      requires Valid()
      modifies this
      ensures Valid()
      ensures config == Put(old(config), key, value)
      ensures written == SaveEnv()
      ensures key != ProtoKey ==> Get(key) == Str(value)
      ensures key == ProtoKey ==> config == old(config)
      ensures forall k :: k != key ==> Get(k) == old(Get(k))
    {
      config := Put(config, key, value);
      written := SaveEnv();
    }

    /** `saveEnv`: the text written to the file. It is empty exactly when
        there is nothing to save, and a configuration with clean entries
        whose keys do not start with `#` loads back from it unchanged. */
    function SaveEnv(): (written: string)
      reads this
      requires Valid()
      ensures written == [] <==> config.keys == []
      ensures RoundTrips(config) ==> Parse(written) == config
    {
      assert RoundTrips(config) ==> Parse(Serialize(config)) == config by {
        if RoundTrips(config) { WriteThenRead(config); }
      }
      Serialize(config)
    }
  }
}
