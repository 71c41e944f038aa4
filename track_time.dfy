/** The objects of the time tracker: a category (one project or task) and
    the tracker that loads the configuration file into its dictionary. */
module TrackTime {
  import opened PyStr
  import opened ConfigLoad

  /** A project or task. `parent` is the enclosing category for nested
      tasks, `shortcut` the key that starts logging it, `time` the seconds
      counted so far (non-zero when restored from a saved state). */
  class Category {
    var parent: Category?
    var shortcut: string
    var name: string
    var time: int

    constructor (parent: Category?, shortcut: string, name: string, time: int := 0)
      ensures this.parent == parent && this.shortcut == shortcut
      ensures this.name == name && this.time == time
    {
      this.shortcut := shortcut;
      this.name := name;
      this.time := time;
      this.parent := parent;
    }
  }

  /** The tracker. Only the dictionary that `load_config` fills is modelled. */
  class Tracker {
    var config: map<string, string>

    constructor ()
      ensures config == map[]
    {
      config := map[];
    }

    /** Reads the lines of the configuration file into `config`. The
        dictionary is replaced by a new empty one first, so nothing of an
        earlier load survives; on an abort it keeps the entries stored before
        the offending line. */
    method LoadConfig(lines: seq<string>) returns (outcome: Outcome)
      modifies this
      ensures config == Load(lines).config && outcome == Load(lines).outcome
      ensures Holds(config, ParseAll(lines), |config|)
    {
      ghost var ps := ParseAll(lines);
      config := map[];
      var i := 0;
      while i < |lines|
        invariant i <= |lines| && |config| == i
        invariant LoadFrom(config, ps, i) == Load(lines)
      {
        var splitted := Split(lines[i], Colon);
        var key := Strip(splitted[0]);
        assert key == ps[i].key by { ParseAllAt(lines, i); }
        if key in config {
          LoadStops(ps);
          return DuplicateAbort(key);
        }
        if |splitted| < 2 {
          assert ps[i].value.None? by { ParseAllAt(lines, i); }
          LoadStops(ps);
          return MissingColon(i);
        }
        var value := Strip(splitted[1]);
        assert ps[i].value == Some(value) by { ParseAllAt(lines, i); }
        config := config[key := value];
        i := i + 1;
      }
      LoadStops(ps);
      return Ok;
    }
  }

  /** Leaving out `time` gives a category that starts at zero seconds. */
  method DefaultTimeIsZero(root: Category?)
  {
    var c := new Category(root, "p", "Project");
    assert c.time == 0 && c.parent == root && c.shortcut == "p";
  }
}
