/** The avatar menu's texts: the initials shown in the avatar, the display
    name, and the role and phone line, all read from the user store. */
module Profile {
  import opened Common
  import opened Text
  import opened UserStore

  const AdminLabel := "管理员"
  const TeacherLabel := "教师"
  const StudentLabel := "学生"
  const DefaultRole := "用户"
  const NoName := "未设置姓名"
  const NoPhone := "未绑定手机"
  const AnonymousInitial := "U"

  /** The role codes and names the menu knows, each with its label. */
  const RoleLabels: map<string, string> := map[
    "10" := AdminLabel, "20" := TeacherLabel, "30" := StudentLabel,
    "admin" := AdminLabel, "teacher" := TeacherLabel, "student" := StudentLabel]

  /** A character of the CJK Unified Ideographs range U+4E00..U+9FA5. */
  predicate IsCjk(c: char) {
    '\U{4E00}' <= c <= '\U{9FA5}'
  }

  /** The test `/[一-龥]/`: some character of the name is in the range. */
  function HasCjk(s: string): (r: bool)
    ensures r <==> exists i :: 0 <= i < |s| && IsCjk(s[i])
    decreases |s|
  {
    if |s| == 0 then false
    else if IsCjk(s[0]) then true
    else
      var rest := HasCjk(s[1..]);
      assert forall i :: 1 <= i < |s| ==> s[i] == s[1..][i - 1];
      rest
  }

  /** `getNameAbbreviation`: "U" without a name; the last two characters of
      a name holding a Chinese character (the whole of a shorter one); else
      the first character upper-cased. */
  function Abbreviation(name: Option<string>): (r: string)
    ensures 1 <= |r| <= 2
    ensures !Present(name) ==> r == AnonymousInitial
    ensures Present(name) && HasCjk(name.value) ==>
      var n := name.value;
      |r| == (if |n| < 2 then |n| else 2) && r == n[|n| - |r|..]
    ensures Present(name) && !HasCjk(name.value) ==>
      |r| == 1 && !IsLower(r[0]) && LowerChar(r[0]) == LowerChar(name.value[0])
  {
    if !Present(name) then AnonymousInitial
    else
      var n := name.value;
      if HasCjk(n) then (if |n| < 2 then n else n[|n| - 2..])
      else [UpperChar(n[0])]
  }

  /** `displayName`: the user's name, or a default when absent or empty. */
  function DisplayName(info: Option<UserInfo>): (r: string)
    ensures r != ""
    ensures info.Some? && info.value.name != "" ==> r == info.value.name
    ensures info.None? || info.value.name == "" ==> r == NoName
  {
    OrElse(if info.Some? then Some(info.value.name) else None, NoName)
  }

  /** `displayRole`: the label of a known role code, `用户` for an unknown or
      empty one or when nobody is signed in. */
  function DisplayRole(info: Option<UserInfo>): (r: string)
    ensures r in {AdminLabel, TeacherLabel, StudentLabel, DefaultRole}
    ensures r == AdminLabel <==> info.Some? && info.value.role in {"10", "admin"}
    ensures r == TeacherLabel <==> info.Some? && info.value.role in {"20", "teacher"}
    ensures r == StudentLabel <==> info.Some? && info.value.role in {"30", "student"}
  {
    if info.Some? && info.value.role != "" && info.value.role in RoleLabels then RoleLabels[info.value.role]
    else DefaultRole
  }

  /** The second line of the menu's label: role, a middle dot, and the phone
      number or a placeholder. */
  function Subtitle(info: Option<UserInfo>): (r: string)
    ensures |r| >= |DisplayRole(info)| + 3
    ensures r[..|DisplayRole(info)| + 3] == DisplayRole(info) + " · "
    ensures info.Some? && info.value.phone != "" ==> r[|DisplayRole(info)| + 3..] == info.value.phone
    ensures info.None? || info.value.phone == "" ==> r[|DisplayRole(info)| + 3..] == NoPhone
  {
    DisplayRole(info) + " · " + OrElse(if info.Some? then Some(info.value.phone) else None, NoPhone)
  }

  /** After signing out the menu shows only its defaults. */
  lemma {:induction false} SignedOutShowsDefaults(s: State)
    ensures var info := Logout(s).userInfo;
      && DisplayName(info) == NoName
      && DisplayRole(info) == DefaultRole
      && Abbreviation(if info.Some? then Some(info.value.name) else None) == AnonymousInitial
      && Subtitle(info) == DefaultRole + " · " + NoPhone
  { }

  /** After signing in, the menu shows the signed-in user's name, and a Chinese
      name of two or more characters is abbreviated to its last two. */
  lemma {:induction false} SignedInShowsUser(s: State, token: string, u: UserInfo)
    requires u.name != ""
    ensures var info := Login(s, token, Some(u)).userInfo;
      && DisplayName(info) == u.name
      && (HasCjk(u.name) && |u.name| >= 2 ==>
            Abbreviation(Some(info.value.name)) == [u.name[|u.name| - 2], u.name[|u.name| - 1]])
  {
    var n := u.name;
    if HasCjk(n) && |n| >= 2 {
      assert n[|n| - 2..] == [n[|n| - 2], n[|n| - 1]];
    }
  }
}
