/**
 * The project's logging helpers: the logger name derived from a module
 * path, the colour chosen for each level name, and the registration of a
 * new level (`SUCCESS = 25`) on the `logging` module and its logger class.
 */
module Logger {
  import opened Wrappers
  import opened Strings

  // ---------------------------------------------------------------------
  // get_module_name
  // ---------------------------------------------------------------------

  const ProjectDir: string := "audt/"

  /**
   * `get_module_name(name)`. `name` is `None` for a value that is not a
   * string; `callerFile` is the file name of the caller's caller, which the
   * source reads from the interpreter stack when the name is `__main__`.
   * A name that holds `audt/` becomes `audt.` and the text between its first
   * and second `audt/`, with `/` turned into `.` and every `.py` dropped.
   */
  function GetModuleName(name: Option<string>, callerFile: string): (r: Option<string>)
    ensures name.None? ==> r.None?
  {
    var n := if name == Some("__main__") then Some(callerFile) else name;
    match n
    case None => None
    case Some(s) =>
      if Contains(s, "audt") && |Split(s, ProjectDir)| > 1 then
        Some("audt." + Replace(Replace(Split(s, ProjectDir)[1], "/", "."), ".py", ""))
      else n
  }

  /** A name that contains `audt/` contains `audt`. */
  lemma ProjectDirHasAudt(s: string)
    requires Contains(s, ProjectDir)
    ensures Contains(s, "audt")
  {
    var i := Find(s, ProjectDir).value;
    assert s[i..i + 4] == s[i..i + 5][..4] == "audt";
    ContainsOccurrence(s, "audt", i);
  }

  /** `name.split('audt/')` has a second piece exactly when the name contains `audt/`. */
  lemma SplitHasSecondPiece(s: string)
    ensures |Split(s, ProjectDir)| > 1 <==> Contains(s, ProjectDir)
  {
    SplitCount(s, ProjectDir);
    CountZero(s, ProjectDir);
  }

  /**
   * A string name that holds `audt/` is rewritten into a dotted name that
   * starts with `audt.` and has no `/` left; every other name comes back as
   * it was.
   */
  lemma ModuleNameSpec(name: string, callerFile: string)
    requires name != "__main__"
    ensures var r := GetModuleName(Some(name), callerFile);
      && r.Some?
      && (Contains(name, ProjectDir) ==> StartsWith(r.value, "audt.") && '/' !in r.value)
      && (r.value == name <==> !Contains(name, ProjectDir))
  {
    var r := GetModuleName(Some(name), callerFile);
    SplitHasSecondPiece(name);
    if Contains(name, ProjectDir) {
      ProjectDirHasAudt(name);
      var piece := Split(name, ProjectDir)[1];
      var dotted := Replace(piece, "/", ".");
      ReplaceRemovesChar(piece, '/', ".");
      ReplaceKeepsAbsentChar(dotted, ".py", "", '/');
      var tail := Replace(dotted, ".py", "");
      assert r.value == "audt." + tail;
      assert r.value[..5] == "audt.";
      assert '/' !in "audt.";
      assert forall k :: 0 <= k < |r.value| ==> r.value[k] != '/' by {
        forall k | 0 <= k < |r.value|
          ensures r.value[k] != '/'
        {
          if k >= 5 {
            assert r.value[k] == tail[k - 5];
          }
        }
      }
      var i := Find(name, ProjectDir).value;
      assert name[i + 4] == '/';
    }
  }

  /** A caller's `__main__` is named after the caller's file. */
  lemma MainNameFromCaller(callerFile: string)
    ensures GetModuleName(Some("__main__"), callerFile) == GetModuleName(Some(callerFile), callerFile)
  {
  }

  // ---------------------------------------------------------------------
  // ColorfulFormatter.COLORS and format
  // ---------------------------------------------------------------------

  /** An entry of `COLORS`: the termcolor colour and attributes. */
  datatype Style = Style(color: string, attrs: seq<string>)

  /** A message as `colored` returns it: the text with its colour and attributes. */
  datatype Colored = Colored(text: string, color: string, attrs: seq<string>)

  /** `COLORS.get(level_name)` */
  function StyleFor(levelName: string): (r: Option<Style>)
    ensures r.Some? ==> r.value.attrs == []
  {
    if levelName == "DEBUG" then Some(Style("black", []))
    else if levelName == "INFO" then Some(Style("blue", []))
    else if levelName == "WARNING" then Some(Style("yellow", []))
    else if levelName == "ERROR" then Some(Style("red", []))
    else if levelName == "CRITICAL" then Some(Style("red", []))
    else if levelName == "SUCCESS" then Some(Style("green", []))
    else None
  }

  /** The level names `COLORS` knows. */
  const StyledLevels: set<string> := {"DEBUG", "INFO", "WARNING", "ERROR", "CRITICAL", "SUCCESS"}

  /**
   * `ColorfulFormatter.format` on a record whose base formatting gave `msg`:
   * the message in the level's colour, or `None` where the source fails on
   * subscripting the `None` that `COLORS.get` returns.
   */
  function FormatRecord(levelName: string, msg: string): (r: Option<Colored>)
    ensures r.Some? ==> r.value.text == msg
  {
    match StyleFor(levelName)
    case None => None
    case Some(style) => Some(Colored(msg, style.color, style.attrs))
  }

  /** Formatting succeeds exactly for the six styled level names, and keeps the message. */
  lemma FormatKnownLevels(levelName: string, msg: string)
    ensures FormatRecord(levelName, msg).Some? <==> levelName in StyledLevels
    ensures levelName == "ERROR" || levelName == "CRITICAL" ==> FormatRecord(levelName, msg).value.color == "red"
    ensures levelName == "SUCCESS" ==> FormatRecord(levelName, msg).value.color == "green"
  {
  }

  // ---------------------------------------------------------------------
  // add_logging_level
  // ---------------------------------------------------------------------

  /** What a name is bound to on the `logging` module or the logger class. */
  datatype Attr =
    | LevelNumber(n: int)   // a level constant such as `logging.SUCCESS`
    | LogAt(level: int)     // a convenience method logging at a fixed level
    | Other                 // anything the module or class defined already

  /** Why `add_logging_level` raises `AttributeError`. */
  datatype AddLevelError =
    | LevelNameTaken(levelName: string)
    | MethodNameTaken(methodName: string)
    | MethodNameTakenInClass(methodName: string)

  /** `method_name` when given and not empty, else `level_name.lower()`. */
  function MethodName(levelName: string, methodName: Option<string>): (r: string)
    ensures methodName.Some? && methodName.value != [] ==> r == methodName.value
    ensures methodName.None? || methodName.value == [] ==> r == Lower(levelName)
  {
    if methodName.None? || methodName.value == [] then Lower(levelName) else methodName.value
  }

  /** The three `hasattr` checks, in the source's order: the first one that hits is reported. */
  function Guard(moduleAttrs: map<string, Attr>, classAttrs: map<string, Attr>, levelName: string, callName: string)
    : (r: Option<AddLevelError>)
    ensures r.None? <==> levelName !in moduleAttrs && callName !in moduleAttrs && callName !in classAttrs
  {
    if levelName in moduleAttrs then Some(LevelNameTaken(levelName))
    else if callName in moduleAttrs then Some(MethodNameTaken(callName))
    else if callName in classAttrs then Some(MethodNameTakenInClass(callName))
    else None
  }

  /** Once a level is registered, registering the same level name again is refused. */
  lemma RegisteredThenBlocked(moduleAttrs: map<string, Attr>, classAttrs: map<string, Attr>,
                              levelName: string, callName: string, levelNum: int, callName': string)
    ensures Guard(moduleAttrs[levelName := LevelNumber(levelNum)][callName := LogAt(levelNum)],
                  classAttrs[callName := LogAt(levelNum)], levelName, callName') == Some(LevelNameTaken(levelName))
  {
  }

  /** The names `SUCCESS` is registered under by the project's logger setup. */
  const SuccessName: string := "SUCCESS"
  const SuccessMethod: string := "success"
  const SuccessLevel: int := 25

  /** The state of the `logging` module that `add_logging_level` touches. */
  class LoggingModule {
    /** The attributes of the `logging` module. */
    var moduleAttrs: map<string, Attr>
    /** The attributes of `logging.getLoggerClass()`. */
    var classAttrs: map<string, Attr>
    /** `logging._levelToName` */
    var levelNames: map<int, string>
    /** `logging._nameToLevel` */
    var nameLevels: map<string, int>

    constructor(moduleAttrs: map<string, Attr>, classAttrs: map<string, Attr>,
                levelNames: map<int, string>, nameLevels: map<string, int>)
      ensures this.moduleAttrs == moduleAttrs && this.classAttrs == classAttrs
      ensures this.levelNames == levelNames && this.nameLevels == nameLevels
    {
      this.moduleAttrs := moduleAttrs;
      this.classAttrs := classAttrs;
      this.levelNames := levelNames;
      this.nameLevels := nameLevels;
    }

    /**
     * `add_logging_level(level_name, level_num, method_name)`: every check
     * comes before any change, so a refused call changes nothing; an accepted
     * one names the level, binds the level constant and the module function,
     * and adds the method to the logger class.
     */
    method AddLoggingLevel(levelName: string, levelNum: int, methodName: Option<string>)
      returns (r: Option<AddLevelError>)
      modifies this
      ensures var m := MethodName(levelName, methodName);
        r == Guard(old(moduleAttrs), old(classAttrs), levelName, m)
      ensures r.Some? ==>
        && moduleAttrs == old(moduleAttrs) && classAttrs == old(classAttrs)
        && levelNames == old(levelNames) && nameLevels == old(nameLevels)
      ensures r.None? ==> var m := MethodName(levelName, methodName);
        && moduleAttrs == old(moduleAttrs)[levelName := LevelNumber(levelNum)][m := LogAt(levelNum)]
        && classAttrs == old(classAttrs)[m := LogAt(levelNum)]
        && levelNames == old(levelNames)[levelNum := levelName]
        && nameLevels == old(nameLevels)[levelName := levelNum]
    {
      var m := MethodName(levelName, methodName);
      if levelName in moduleAttrs {
        return Some(LevelNameTaken(levelName));
      }
      if m in moduleAttrs {
        return Some(MethodNameTaken(m));
      }
      if m in classAttrs {
        return Some(MethodNameTakenInClass(m));
      }
      levelNames := levelNames[levelNum := levelName];
      nameLevels := nameLevels[levelName := levelNum];
      moduleAttrs := moduleAttrs[levelName := LevelNumber(levelNum)];
      classAttrs := classAttrs[m := LogAt(levelNum)];
      moduleAttrs := moduleAttrs[m := LogAt(levelNum)];
      return None;
    }

    /**
     * The `SUCCESS` registration of `setup_logger`, whose error is only
     * logged: afterwards the registration is always refused, and a call that
     * is refused changes nothing, so however often the setup runs, `SUCCESS`
     * is registered at most once.
     */
    method EnsureSuccessLevel()
      modifies this
      ensures Guard(moduleAttrs, classAttrs, SuccessName, SuccessMethod).Some?
      ensures old(Guard(moduleAttrs, classAttrs, SuccessName, SuccessMethod)).Some? ==>
        && moduleAttrs == old(moduleAttrs) && classAttrs == old(classAttrs)
        && levelNames == old(levelNames) && nameLevels == old(nameLevels)
      ensures old(Guard(moduleAttrs, classAttrs, SuccessName, SuccessMethod)).None? ==>
        && moduleAttrs == old(moduleAttrs)[SuccessName := LevelNumber(SuccessLevel)][SuccessMethod := LogAt(SuccessLevel)]
        && classAttrs == old(classAttrs)[SuccessMethod := LogAt(SuccessLevel)]
        && levelNames == old(levelNames)[SuccessLevel := SuccessName]
        && nameLevels == old(nameLevels)[SuccessName := SuccessLevel]
    {
      assert MethodName(SuccessName, None) == SuccessMethod;
      var r := AddLoggingLevel(SuccessName, SuccessLevel, None);
      if r.None? {
        RegisteredThenBlocked(old(moduleAttrs), old(classAttrs), SuccessName, SuccessMethod, SuccessLevel, SuccessMethod);
      }
    }
  }
}
