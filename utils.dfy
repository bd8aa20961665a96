/**
 * The student-selection logic of cmd/utils.go: the generic membership test
 * `contains`, the whitelist filter of `getStudents` and the repository filter
 * of `getStudentRepositoriesNames`.
 *
 * The two remote reads (listing the organization's members and listing its
 * repositories) are not performed here: their outcomes are parameters. A
 * member is represented by its login and a repository by its name, each an
 * `Option<string>` because the hosting service's client exposes them as
 * nullable pointers.
 */
module Utils {
  import opened Wrappers
  import opened Seqs

  /** The error a remote read reports; its content is the client library's. */
  datatype ApiError = ApiError(message: string)

  /** The remote reads the core can issue, in the order it issues them. */
  datatype Request = ListMembers | ListReposByOrg

  // ---------------------------------------------------------------------------
  // contains

  /**
   * Linear membership test. The loop stops at the first match; the ghost
   * result `at` is the position where it stopped (`|s|` if no element matched).
   */
  method Contains<T(==)>(s: seq<T>, e: T) returns (found: bool, ghost at: nat)
    ensures found <==> exists i :: 0 <= i < |s| && s[i] == e
    ensures found ==> at < |s| && s[at] == e && forall k :: 0 <= k < at ==> s[k] != e
    ensures !found ==> at == |s|
  {
    for i := 0 to |s|
      invariant forall k :: 0 <= k < i ==> s[k] != e
    {
      if s[i] == e {
        return true, i;
      }
    }
    return false, |s|;
  }

  // ---------------------------------------------------------------------------
  // The student list: members minus the whitelist

  /**
   * The logins the loop of `getStudents` appends, for the member list
   * `members`: every present login that is not whitelisted, in member order.
   * Defined on the last member so that it follows the loop's appends.
   */
  function Students(members: seq<Option<string>>, whitelist: seq<string>): (r: seq<string>)
    ensures |r| <= |members|
    ensures forall x :: x in r ==> x !in whitelist && Some(x) in members
    decreases |members|
  {
    if members == [] then []
    else
      var init := members[..|members| - 1];
      var rest := Students(init, whitelist);
      assert members == init + [members[|members| - 1]];
      match members[|members| - 1]
      case None => rest
      case Some(login) => if login in whitelist then rest else rest + [login]
  }

  /**
   * Each login occurs in the student list exactly as often as members carry it,
   * unless it is whitelisted, in which case it does not occur at all. Members
   * with a nil login contribute nothing.
   */
  lemma {:induction false} StudentsMultiplicity(members: seq<Option<string>>, whitelist: seq<string>, x: string)
    ensures multiset(Students(members, whitelist))[x] == if x in whitelist then 0 else multiset(members)[Some(x)]
    decreases |members|
  {
    if members != [] {
      var init := members[..|members| - 1];
      StudentsMultiplicity(init, whitelist, x);
      assert members == init + [members[|members| - 1]];
    }
  }

  /** The filter excludes exactly the whitelisted logins (and absent ones). */
  lemma {:induction false} StudentsExactlyExcludeWhitelist(members: seq<Option<string>>, whitelist: seq<string>, x: string)
    ensures x in Students(members, whitelist) <==> Some(x) in members && x !in whitelist
  {
    StudentsMultiplicity(members, whitelist, x);
  }

  /** The student list keeps the members' logins in their original order. */
  lemma {:induction false} StudentsInMemberOrder(members: seq<Option<string>>, whitelist: seq<string>)
    ensures IsSubsequence(Students(members, whitelist), Present(members))
    ensures |Students(members, whitelist)| <= |Present(members)|
    decreases |members|
  {
    if members != [] {
      var init := members[..|members| - 1];
      StudentsInMemberOrder(init, whitelist);
      assert members == init + [members[|members| - 1]];
      match members[|members| - 1]
      case None =>
      case Some(login) =>
        if login in whitelist {
          SubsequenceSkip(Students(init, whitelist), Present(init), login);
        } else {
          SubsequenceKeep(Students(init, whitelist), Present(init), login);
        }
    }
    SubsequenceLength(Students(members, whitelist), Present(members));
  }

  /**
   * `getStudents`, given the outcome of the member listing: a failed listing
   * is returned as the error; otherwise the members are filtered one by one.
   */
  method GetStudents(whitelist: seq<string>, listed: Result<seq<Option<string>>, ApiError>)
    returns (res: Result<seq<string>, ApiError>)
    ensures listed.Failure? ==> res == Failure(listed.error)
    ensures listed.Success? ==> res == Success(Students(listed.value, whitelist))
  {
    if listed.Failure? {
      return Failure(listed.error);
    }
    var members := listed.value;
    var students: seq<string> := [];
    for i := 0 to |members|
      invariant students == Students(members[..i], whitelist)
    {
      assert members[..i + 1][..i] == members[..i];
      var member := members[i];
      if member.None? {
        continue;
      }
      var whitelisted: bool;
      ghost var at: nat;
      whitelisted, at := Contains(whitelist, member.value);
      if !whitelisted {
        students := students + [member.value];
      }
    }
    assert members[..|members|] == members;
    return Success(students);
  }

  // ---------------------------------------------------------------------------
  // The student repositories: org repositories named after a student

  /**
   * The names the loop of `getStudentRepositoriesNames` appends, for the
   * repository list `repos`: every present name that is a student login, in
   * repository order.
   */
  function StudentRepos(repos: seq<Option<string>>, students: seq<string>): (r: seq<string>)
    ensures |r| <= |repos|
    ensures forall x :: x in r ==> x in students && Some(x) in repos
    decreases |repos|
  {
    if repos == [] then []
    else
      var init := repos[..|repos| - 1];
      var rest := StudentRepos(init, students);
      assert repos == init + [repos[|repos| - 1]];
      match repos[|repos| - 1]
      case None => rest
      case Some(name) => if name in students then rest + [name] else rest
  }

  /**
   * Each name occurs in the result exactly as often as repositories carry it
   * when it is a student login, and not at all otherwise.
   */
  lemma {:induction false} StudentReposMultiplicity(repos: seq<Option<string>>, students: seq<string>, x: string)
    ensures multiset(StudentRepos(repos, students))[x] == if x in students then multiset(repos)[Some(x)] else 0
    decreases |repos|
  {
    if repos != [] {
      var init := repos[..|repos| - 1];
      StudentReposMultiplicity(init, students, x);
      assert repos == init + [repos[|repos| - 1]];
    }
  }

  /** A name is returned exactly when it is both a present repository name and a student login. */
  lemma {:induction false} StudentReposIntersection(repos: seq<Option<string>>, students: seq<string>, x: string)
    ensures x in StudentRepos(repos, students) <==> Some(x) in repos && x in students
  {
    StudentReposMultiplicity(repos, students, x);
  }

  /** The result keeps the repository names in the organization's listing order. */
  lemma {:induction false} StudentReposInRepoOrder(repos: seq<Option<string>>, students: seq<string>)
    ensures IsSubsequence(StudentRepos(repos, students), Present(repos))
    ensures |StudentRepos(repos, students)| <= |Present(repos)|
    decreases |repos|
  {
    if repos != [] {
      var init := repos[..|repos| - 1];
      StudentReposInRepoOrder(init, students);
      assert repos == init + [repos[|repos| - 1]];
      match repos[|repos| - 1]
      case None =>
      case Some(name) =>
        if name in students {
          SubsequenceKeep(StudentRepos(init, students), Present(init), name);
        } else {
          SubsequenceSkip(StudentRepos(init, students), Present(init), name);
        }
    }
    SubsequenceLength(StudentRepos(repos, students), Present(repos));
  }

  /**
   * Composed, the two filters return the repositories named after a member
   * that is not whitelisted.
   */
  lemma StudentRepositoriesOfMembers(members: seq<Option<string>>, whitelist: seq<string>,
                                     repos: seq<Option<string>>, x: string)
    ensures x in StudentRepos(repos, Students(members, whitelist))
        <==> Some(x) in repos && Some(x) in members && x !in whitelist
  {
    StudentReposIntersection(repos, Students(members, whitelist), x);
    StudentsExactlyExcludeWhitelist(members, whitelist, x);
  }

  /**
   * `getStudentRepositoriesNames`, given the outcomes the two remote reads
   * would have. `requests` lists the reads actually issued: the repository
   * listing is issued only after a successful member listing.
   */
  method GetStudentRepositoriesNames(whitelist: seq<string>,
                                     listedMembers: Result<seq<Option<string>>, ApiError>,
                                     listedRepos: Result<seq<Option<string>>, ApiError>)
    returns (res: Result<seq<string>, ApiError>, requests: seq<Request>)
    ensures listedMembers.Failure? ==>
      res == Failure(listedMembers.error) && requests == [ListMembers]
    ensures listedMembers.Success? && listedRepos.Failure? ==>
      res == Failure(listedRepos.error) && requests == [ListMembers, ListReposByOrg]
    ensures listedMembers.Success? && listedRepos.Success? ==>
      res == Success(StudentRepos(listedRepos.value, Students(listedMembers.value, whitelist)))
      && requests == [ListMembers, ListReposByOrg]
  {
    requests := [ListMembers];
    var fetchedStudents := GetStudents(whitelist, listedMembers);
    if fetchedStudents.Failure? {
      return Failure(fetchedStudents.error), requests;
    }
    var students := fetchedStudents.value;
    requests := requests + [ListReposByOrg];
    if listedRepos.Failure? {
      return Failure(listedRepos.error), requests;
    }
    var orgRepos := listedRepos.value;
    var studentRepos: seq<string> := [];
    for i := 0 to |orgRepos|
      invariant studentRepos == StudentRepos(orgRepos[..i], students)
    {
      assert orgRepos[..i + 1][..i] == orgRepos[..i];
      var repo := orgRepos[i];
      if repo.None? {
        continue;
      }
      var isStudent: bool;
      ghost var at: nat;
      isStudent, at := Contains(students, repo.value);
      if isStudent {
        studentRepos := studentRepos + [repo.value];
      }
    }
    assert orgRepos[..|orgRepos|] == orgRepos;
    return Success(studentRepos), requests;
  }
}
