/**
 * The persisted settings store (SharedPreferences behind PrefsHelper) as a
 * plain map from key to typed value. A typed read of a key that holds a value
 * of another type throws ClassCastException on Android; the getters report
 * that as `WrongType` so that callers can model their exception handling.
 */
module Prefs {
  import opened Base
  import opened Doubles

  datatype PrefValue =
    | PString(s: string)
    | PInt(i: Int32)
    | PFloat(f: Double)
    | PBool(b: bool)

  type Store = map<string, PrefValue>

  /** The outcome of a typed read with a default. */
  datatype Read<+T> = Value(v: T) | WrongType

  // Keys written and read by the job and the settings bridge.
  const KeyApi := "apiKey"
  const KeyIndex := "selectedIndex"
  const KeyBuy := "buyThreshold"
  const KeySell := "sellThreshold"
  const KeySma := "smaPeriod"
  const KeyLastSignal := "lastSignal"
  const KeyLastPercent := "lastPercent"
  const KeyLastDate := "lastDate"
  const KeyNotifFrequency := "notifFrequency"
  const KeyNotifHour := "notifHour"
  const KeyNotifMinute := "notifMinute"
  /** The master notification toggle; its name is not declared in PrefsHelper, see README. */
  const KeyNotifEnabled := "notifEnabled"

  function GetString(st: Store, key: string, default: string): (r: Read<string>)
    ensures r == WrongType <==> key in st && !st[key].PString?
    ensures key !in st ==> r == Value(default)
    ensures key in st && st[key].PString? ==> r == Value(st[key].s)
  {
    if key !in st then Value(default)
    else if st[key].PString? then Value(st[key].s)
    else WrongType
  }

  function GetInt(st: Store, key: string, default: Int32): (r: Read<Int32>)
    ensures r == WrongType <==> key in st && !st[key].PInt?
    ensures key !in st ==> r == Value(default)
    ensures key in st && st[key].PInt? ==> r == Value(st[key].i)
  {
    if key !in st then Value(default)
    else if st[key].PInt? then Value(st[key].i)
    else WrongType
  }

  function GetFloat(st: Store, key: string, default: Double): (r: Read<Double>)
    ensures r == WrongType <==> key in st && !st[key].PFloat?
    ensures key !in st ==> r == Value(default)
    ensures key in st && st[key].PFloat? ==> r == Value(st[key].f)
  {
    if key !in st then Value(default)
    else if st[key].PFloat? then Value(st[key].f)
    else WrongType
  }

  function GetBool(st: Store, key: string, default: bool): (r: Read<bool>)
    ensures r == WrongType <==> key in st && !st[key].PBool?
    ensures key !in st ==> r == Value(default)
    ensures key in st && st[key].PBool? ==> r == Value(st[key].b)
  {
    if key !in st then Value(default)
    else if st[key].PBool? then Value(st[key].b)
    else WrongType
  }

  /** A put followed by a read of the same key with the matching type gives back the value put. */
  lemma PutThenGet(st: Store, key: string, s: string, i: Int32, f: Double, b: bool,
                   ds: string, di: Int32, df: Double, db: bool)
    ensures GetString(st[key := PString(s)], key, ds) == Value(s)
    ensures GetInt(st[key := PInt(i)], key, di) == Value(i)
    ensures GetFloat(st[key := PFloat(f)], key, df) == Value(f)
    ensures GetBool(st[key := PBool(b)], key, db) == Value(b)
  {
  }
}
