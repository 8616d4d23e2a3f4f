/**
 * src/data/menu-data.ts: the February lunch menu, one entry per school day,
 * and the lookup of the entry for a date by its day of the month.
 */
module MenuData {
  import opened Wrappers

  /** One day of the menu; `date` is the printed label, `day` the day of the month. */
  datatype Menu = Menu(day: nat, date: string, lunch: string, snack: string, calories: string)

  /** A calendar date; only its day of the month is consulted. */
  datatype Date = Date(year: int, month: nat, day: nat)

  /** `februaryMenu`, in table order (the last entry is test data). */
  const FebruaryMenu: seq<Menu> :=
    [
      Menu(2, "2日(月)", "鮭の塩こうじ漬け、はくさいと油揚げの煮浸し、みそ汁", "マカロニきなこ", "494 kcal"),
      Menu(3, "3日(火)", "鶏そぼろ丼、和風ポテトサラダ、みそ汁", "バナナパウンドケーキ", "474 kcal"),
      Menu(4, "4日(水)", "たれカツ丼、ブロッコリーのごま和え、みそ汁", "お麩ラスク(シュガー)", "463 kcal"),
      Menu(5, "5日(木)", "生揚げとチンゲン菜のとろみ煮、かぼちゃの甘辛焼き、みそ汁", "いちご豆乳寒天、いりこ", "481 kcal"),
      Menu(6, "6日(金)", "食パン、鶏のトマト煮、コールスロー、コンソメスープ", "彩り納豆チャーハン、マスカットゼリー", "449 kcal"),
      Menu(7, "7日(土)", "ビビンパ丼、蒸かし芋、みそ汁", "豆乳ヨーグルト", "462 kcal"),
      Menu(9, "9日(月)", "バーベキューチキン、マッシュ里芋、みそ汁", "トマトチーズマフィン", "449 kcal"),
      Menu(10, "10日(火)", "豚のあんかけ焼きそば、ブロッコリーのサラダ、みそ汁", "小魚とわかめのごはん", "482 kcal"),
      Menu(12, "12日(木)", "さわらの竜田揚げ、白和え、みそ汁", "中華風ビーフン", "456 kcal"),
      Menu(13, "13日(金)", "ハヤシライス、かぼちゃサラダ、コンソメスープ", "コーンフレークおこし", "501 kcal"),
      Menu(14, "14日(土)", "豚そぼろとキャベツのチャーハン、煮物、中華スープ", "いももち(さつまいも)", "475 kcal"),
      Menu(16, "16日(月)", "鮭の塩こうじ漬け、はくさいと油揚げの煮浸し、みそ汁", "マカロニきなこ", "451 kcal"),
      Menu(17, "17日(火)", "豚とパプリカの和風炒め、味噌ポテト、すまし汁", "ハムと野菜の醤油ラーメン", "461 kcal"),
      Menu(18, "18日(水)", "たれカツ丼、ブロッコリーのごま和え、みそ汁", "お麩ラスク(シュガー)", "463 kcal"),
      Menu(19, "19日(木)", "生揚げとチンゲン菜のとろみ煮、かぼちゃの甘辛焼き、みそ汁", "いちご豆乳寒天、いりこ", "481 kcal"),
      Menu(20, "20日(金)", "食パン、鶏のトマト煮、コールスロー、コンソメスープ", "彩り納豆チャーハン、マスカットゼリー", "449 kcal"),
      Menu(21, "21日(土)", "ビビンパ丼、蒸かし芋、みそ汁", "豆乳ヨーグルト", "462 kcal"),
      Menu(24, "24日(火)", "豚のあんかけ焼きそば、ブロッコリーのサラダ、みそ汁", "小魚とわかめのごはん", "482 kcal"),
      Menu(25, "25日(水)", "鶏とほうれん草のクリーム煮、甘酢和え、みそ汁", "ごまきなこトースト", "462 kcal"),
      Menu(26, "26日(木)", "さわらの竜田揚げ、白和え、みそ汁", "中華風ビーフン", "456 kcal"),
      Menu(27, "27日(金)", "ハヤシライス、かぼちゃサラダ、コンソメスープ", "ほうれんそうとコーンのケーキ", "499 kcal"),
      Menu(28, "28日(土)", "豚そぼろとキャベツのチャーハン、煮物、中華スープ", "いももち(さつまいも)", "475 kcal"),
      Menu(29, "29日(木)", "【テスト】カレーライス、サラダ", "【テスト】プリン", "500 kcal")
    ]

  /** The days of the month the table has an entry for. */
  const MenuDays: set<nat> := {2, 3, 4, 5, 6, 7, 9, 10, 12, 13, 14, 16, 17, 18, 19, 20, 21, 24, 25, 26, 27, 28, 29}

  /** `menus.find(m => m.day === day)`: the first entry, in order, whose day is `day`. */
  function FindDay(menus: seq<Menu>, day: nat): (r: Option<Menu>)
    ensures r.Some? ==> r.value.day == day
    ensures r.None? <==> !HasEntry(menus, day)
    ensures r.Some? ==> exists i | 0 <= i < |menus| ::
      menus[i] == r.value && forall k | 0 <= k < i :: menus[k].day != day
  {
    if menus == [] then None
    else if menus[0].day == day then Some(menus[0])
    else
      var r := FindDay(menus[1..], day);
      assert r.Some? ==> exists i | 0 <= i < |menus| ::
        menus[i] == r.value && forall k | 0 <= k < i :: menus[k].day != day by {
        if r.Some? {
          var i :| 0 <= i < |menus| - 1 && menus[1..][i] == r.value
            && forall k | 0 <= k < i :: menus[1..][k].day != day;
          assert menus[i + 1] == r.value;
          assert forall k | 0 <= k < i + 1 :: menus[k].day != day by {
            forall k | 0 <= k < i + 1 ensures menus[k].day != day {
              if k > 0 { assert menus[k] == menus[1..][k - 1]; }
            }
          }
        }
      }
      r
  }

  /** `getMenuForDate`: the menu entry for the date's day of the month, if the table has one. */
  function GetMenuForDate(date: Date): (r: Option<Menu>)
    ensures r.Some? ==> r.value.day == date.day && r.value in FebruaryMenu
  {
    FindDay(FebruaryMenu, date.day)
  }

  /** Each entry's day is below the next entry's day (first half of the table). */
  lemma AdjacentDaysFirstHalf()
    ensures |FebruaryMenu| == 23
    ensures forall i | 0 <= i < 11 :: FebruaryMenu[i].day < FebruaryMenu[i + 1].day
  {
    var m := FebruaryMenu;
    forall i | 0 <= i < 11 ensures m[i].day < m[i + 1].day {
      if i == 0 { assert m[0].day == 2 && m[1].day == 3; }
      else if i == 1 { assert m[1].day == 3 && m[2].day == 4; }
      else if i == 2 { assert m[2].day == 4 && m[3].day == 5; }
      else if i == 3 { assert m[3].day == 5 && m[4].day == 6; }
      else if i == 4 { assert m[4].day == 6 && m[5].day == 7; }
      else if i == 5 { assert m[5].day == 7 && m[6].day == 9; }
      else if i == 6 { assert m[6].day == 9 && m[7].day == 10; }
      else if i == 7 { assert m[7].day == 10 && m[8].day == 12; }
      else if i == 8 { assert m[8].day == 12 && m[9].day == 13; }
      else if i == 9 { assert m[9].day == 13 && m[10].day == 14; }
      else if i == 10 { assert m[10].day == 14 && m[11].day == 16; }
    }
  }

  /** Each entry's day is below the next entry's day (second half of the table). */
  lemma AdjacentDaysSecondHalf()
    ensures forall i | 11 <= i < 22 :: FebruaryMenu[i].day < FebruaryMenu[i + 1].day
  {
    var m := FebruaryMenu;
    forall i | 11 <= i < 22 ensures m[i].day < m[i + 1].day {
      if i == 11 { assert m[11].day == 16 && m[12].day == 17; }
      else if i == 12 { assert m[12].day == 17 && m[13].day == 18; }
      else if i == 13 { assert m[13].day == 18 && m[14].day == 19; }
      else if i == 14 { assert m[14].day == 19 && m[15].day == 20; }
      else if i == 15 { assert m[15].day == 20 && m[16].day == 21; }
      else if i == 16 { assert m[16].day == 21 && m[17].day == 24; }
      else if i == 17 { assert m[17].day == 24 && m[18].day == 25; }
      else if i == 18 { assert m[18].day == 25 && m[19].day == 26; }
      else if i == 19 { assert m[19].day == 26 && m[20].day == 27; }
      else if i == 20 { assert m[20].day == 27 && m[21].day == 28; }
      else if i == 21 { assert m[21].day == 28 && m[22].day == 29; }
    }
  }

  /** Every entry's day is one of `MenuDays`. */
  lemma EveryEntryListed()
    ensures forall i | 0 <= i < |FebruaryMenu| :: FebruaryMenu[i].day in MenuDays
  {
    var m := FebruaryMenu;
    forall i | 0 <= i < |m| ensures m[i].day in MenuDays {
      if i == 0 { assert m[0].day == 2; }
      else if i == 1 { assert m[1].day == 3; }
      else if i == 2 { assert m[2].day == 4; }
      else if i == 3 { assert m[3].day == 5; }
      else if i == 4 { assert m[4].day == 6; }
      else if i == 5 { assert m[5].day == 7; }
      else if i == 6 { assert m[6].day == 9; }
      else if i == 7 { assert m[7].day == 10; }
      else if i == 8 { assert m[8].day == 12; }
      else if i == 9 { assert m[9].day == 13; }
      else if i == 10 { assert m[10].day == 14; }
      else if i == 11 { assert m[11].day == 16; }
      else if i == 12 { assert m[12].day == 17; }
      else if i == 13 { assert m[13].day == 18; }
      else if i == 14 { assert m[14].day == 19; }
      else if i == 15 { assert m[15].day == 20; }
      else if i == 16 { assert m[16].day == 21; }
      else if i == 17 { assert m[17].day == 24; }
      else if i == 18 { assert m[18].day == 25; }
      else if i == 19 { assert m[19].day == 26; }
      else if i == 20 { assert m[20].day == 27; }
      else if i == 21 { assert m[21].day == 28; }
      else if i == 22 { assert m[22].day == 29; }
    }
  }

  /** Every day in `MenuDays` up to the 14th has an entry. */
  lemma EarlyMenuDaysHaveEntries()
    ensures forall d | d in MenuDays && d <= 14 :: HasEntry(FebruaryMenu, d)
  {
    var m := FebruaryMenu;
    forall d | d in MenuDays && d <= 14 ensures HasEntry(m, d) {
      if d == 2 { assert m[0].day == 2; }
      else if d == 3 { assert m[1].day == 3; }
      else if d == 4 { assert m[2].day == 4; }
      else if d == 5 { assert m[3].day == 5; }
      else if d == 6 { assert m[4].day == 6; }
      else if d == 7 { assert m[5].day == 7; }
      else if d == 9 { assert m[6].day == 9; }
      else if d == 10 { assert m[7].day == 10; }
      else if d == 12 { assert m[8].day == 12; }
      else if d == 13 { assert m[9].day == 13; }
      else if d == 14 { assert m[10].day == 14; }
    }
  }

  /** Every day in `MenuDays` after the 14th has an entry. */
  lemma LateMenuDaysHaveEntries()
    ensures forall d | d in MenuDays && d > 14 :: HasEntry(FebruaryMenu, d)
  {
    var m := FebruaryMenu;
    forall d | d in MenuDays && d > 14 ensures HasEntry(m, d) {
      if d == 16 { assert m[11].day == 16; }
      else if d == 17 { assert m[12].day == 17; }
      else if d == 18 { assert m[13].day == 18; }
      else if d == 19 { assert m[14].day == 19; }
      else if d == 20 { assert m[15].day == 20; }
      else if d == 21 { assert m[16].day == 21; }
      else if d == 24 { assert m[17].day == 24; }
      else if d == 25 { assert m[18].day == 25; }
      else if d == 26 { assert m[19].day == 26; }
      else if d == 27 { assert m[20].day == 27; }
      else if d == 28 { assert m[21].day == 28; }
      else if d == 29 { assert m[22].day == 29; }
    }
  }

  /** Some entry of `menus` is for day d. */
  predicate HasEntry(menus: seq<Menu>, d: nat)
  {
    exists i | 0 <= i < |menus| :: menus[i].day == d
  }

  lemma {:induction false} AdjacentToStrict(menus: seq<Menu>)
    requires forall i | 0 <= i < |menus| - 1 :: menus[i].day < menus[i + 1].day
    ensures forall i, j | 0 <= i < j < |menus| :: menus[i].day < menus[j].day
  {
    if |menus| >= 2 {
      AdjacentToStrict(menus[1..]);
      forall i, j | 0 <= i < j < |menus| ensures menus[i].day < menus[j].day {
        if i > 0 {
          assert menus[i] == menus[1..][i - 1] && menus[j] == menus[1..][j - 1];
        } else if j > 1 {
          assert menus[1] == menus[1..][0] && menus[j] == menus[1..][j - 1];
        }
      }
    }
  }

  /** A table whose days all lie in S, and which has an entry for each day of S, has entries for exactly S. */
  lemma EntriesForExactly(menus: seq<Menu>, days: set<nat>)
    requires forall i | 0 <= i < |menus| :: menus[i].day in days
    requires forall d | d in days :: HasEntry(menus, d)
    ensures forall d: nat :: HasEntry(menus, d) <==> d in days
  {
  }

  /** The table's days, read in order, strictly increase. */
  lemma DaysIncreasing()
    ensures forall i, j | 0 <= i < j < |FebruaryMenu| :: FebruaryMenu[i].day < FebruaryMenu[j].day
  {
    AdjacentDaysFirstHalf();
    AdjacentDaysSecondHalf();
    AdjacentToStrict(FebruaryMenu);
  }

  /** So no two entries share a day, and at most one entry can match a date. */
  lemma DaysUnique()
    ensures forall i, j | 0 <= i < |FebruaryMenu| && 0 <= j < |FebruaryMenu| ::
      FebruaryMenu[i].day == FebruaryMenu[j].day ==> i == j
  {
    DaysIncreasing();
  }

  /** The table has an entry for exactly the days in `MenuDays`. */
  lemma TableDays()
    ensures forall d: nat :: HasEntry(FebruaryMenu, d) <==> d in MenuDays
  {
    EveryEntryListed();
    EarlyMenuDaysHaveEntries();
    LateMenuDaysHaveEntries();
    EntriesForExactly(FebruaryMenu, MenuDays);
  }

  /** The days of the month without an entry. */
  lemma DaysWithoutEntry(d: nat)
    requires 1 <= d <= 31
    ensures d !in MenuDays <==> d in {1, 8, 11, 15, 22, 23, 30, 31}
  {
  }

  /**
   * `getMenuForDate` finds an entry exactly on the days the table lists, and
   * returns undefined on the 1st, 8th, 11th, 15th, 22nd, 23rd, 30th and 31st.
   */
  lemma MenuFoundOnListedDays(date: Date)
    ensures GetMenuForDate(date).Some? <==> date.day in MenuDays
    ensures 1 <= date.day <= 31 ==>
      (GetMenuForDate(date).None? <==> date.day in {1, 8, 11, 15, 22, 23, 30, 31})
  {
    TableDays();
    if 1 <= date.day <= 31 {
      DaysWithoutEntry(date.day);
    }
  }

  /** Only the day of the month is consulted: the month and the year do not matter. */
  lemma MonthAndYearIgnored(a: Date, b: Date)
    requires a.day == b.day
    ensures GetMenuForDate(a) == GetMenuForDate(b)
  {
  }
}
