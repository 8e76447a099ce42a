/** The member panel of a project's detail view,
    `components/project-details.tsx`: loading the members, inviting one by
    e-mail, removing one, and the members statistic. The project id (`None`
    when there is no project), the viewer's `userId`, the confirmation
    dialog and the responses of `/api/projects/[id]/members` are inputs. */
module ProjectDetails {
  import opened Common
  import opened Sequences

  datatype Member = Member(id: int, name: string, email: string, role: string)

  /** The JSON body of the invitation `POST`. */
  datatype InviteRequest = InviteRequest(projectId: int, email: string, role: string, invitedBy: int)

  /** How loading the members ended: it threw, or gave a payload, `None`
      standing for one that is not an array. */
  datatype MembersResponse = MembersFailed | MembersPayload(data: Option<seq<Member>>)

  /** How the invitation ended: an ok status, after which the list is loaded
      again with the given result, or a non-ok status or thrown error. */
  datatype InviteOutcome = Invited(reload: MembersResponse) | InviteFailed

  /** The list `fetchMembers` installs: the payload when it is an array, and
      the empty list otherwise, including on failure. */
  function LoadedMembers(response: MembersResponse): (r: seq<Member>)
    ensures response.MembersPayload? && response.data.Some? ==> r == response.data.value
    ensures !(response.MembersPayload? && response.data.Some?) ==> r == []
  {
    match response
    case MembersFailed => []
    case MembersPayload(data) => if data.Some? then data.value else []
  }

  /** `members.filter((member) => member.id !== memberId)` */
  function WithoutMember(members: seq<Member>, memberId: int): (r: seq<Member>)
    ensures SubsequenceOf(r, members)
    ensures forall m :: m in r <==> m in members && m.id != memberId
  {
    Filter(members, (m: Member) => m.id != memberId)
  }

  /** `member.id !== userId`: the remove button is offered on every member
      but the viewer. */
  predicate RemoveOffered(member: Member, userId: int) {
    member.id != userId
  }

  /** Removing a member through an offered button never removes the viewer's
      own entries. */
  lemma RemovalKeepsViewer(members: seq<Member>, target: Member, userId: int)
    requires target in members && RemoveOffered(target, userId)
    ensures forall m :: m in members && m.id == userId ==> m in WithoutMember(members, target.id)
  {
  }

  /** The "Membros" statistic, `members.length`. */
  function MembersStat(members: seq<Member>): nat {
    |members|
  }

  /** A removal lowers the statistic by the number of entries carrying the
      removed id, and by nothing else. */
  lemma MembersStatAfterRemoval(members: seq<Member>, memberId: int)
    ensures MembersStat(WithoutMember(members, memberId)) + |Filter(members, (m: Member) => m.id == memberId)|
            == MembersStat(members)
  {
    FilterPartition(members, (m: Member) => m.id != memberId, (m: Member) => m.id == memberId);
  }

  /** The state fields of the component. */
  class MemberPanel {
    var members: seq<Member>
    var loading: bool
    var showAddMember: bool
    var newMemberEmail: string
    var newMemberRole: string

    constructor ()
      ensures members == [] && !loading && !showAddMember
      ensures newMemberEmail == "" && newMemberRole == "Membro"
    {
      members := [];
      loading := false;
      showAddMember := false;
      newMemberEmail := "";
      newMemberRole := "Membro";
    }

    /** `fetchMembers`: without a project nothing happens; otherwise the
        loaded list replaces the members. */
    method FetchMembers(projectId: Option<int>, response: MembersResponse)
      modifies this
      ensures !IdPresent(projectId) ==> members == old(members)
      ensures IdPresent(projectId) ==> members == LoadedMembers(response)
      ensures loading == old(loading) && showAddMember == old(showAddMember)
      ensures newMemberEmail == old(newMemberEmail) && newMemberRole == old(newMemberRole)
    {
      if !IdPresent(projectId) {
        return;
      }
      members := LoadedMembers(response);
    }

    /** `handleAddMember`: without a project, or with an e-mail that is blank
        once trimmed, nothing is sent (`sent` is `None`) and nothing changes.
        Otherwise the e-mail as typed is sent; on success the list is loaded
        again, the e-mail is cleared and the form hidden; on failure those
        stay. Loading ends either way. */
    method HandleAddMember(projectId: Option<int>, userId: int, outcome: InviteOutcome)
      returns (sent: Option<InviteRequest>)
      modifies this
      ensures sent.None? <==> !IdPresent(projectId) || IsBlank(old(newMemberEmail))
      ensures sent.None? ==>
                members == old(members) && loading == old(loading) &&
                showAddMember == old(showAddMember) && newMemberEmail == old(newMemberEmail)
      ensures sent.Some? ==>
                sent.value == InviteRequest(projectId.value, old(newMemberEmail), old(newMemberRole), userId) &&
                !loading
      ensures sent.Some? && outcome.Invited? ==>
                members == LoadedMembers(outcome.reload) && newMemberEmail == "" && !showAddMember
      ensures sent.Some? && outcome.InviteFailed? ==>
                members == old(members) && newMemberEmail == old(newMemberEmail) &&
                showAddMember == old(showAddMember)
      ensures newMemberRole == old(newMemberRole)
    {
      var _, blank := TrimText(newMemberEmail);
      if !IdPresent(projectId) || blank {
        return None;
      }
      loading := true;
      sent := Some(InviteRequest(projectId.value, newMemberEmail, newMemberRole, userId));
      if outcome.Invited? {
        FetchMembers(projectId, outcome.reload);
        newMemberEmail := "";
        showAddMember := false;
      }
      loading := false;
    }

    /** `handleRemoveMember(memberId)`: without a project or a confirmation
        nothing is sent; otherwise the `DELETE` is sent (`requested`) and on
        success exactly the members with that id leave the list. */
    method HandleRemoveMember(projectId: Option<int>, confirmed: bool, memberId: int, ok: bool)
      returns (requested: bool)
      modifies this
      ensures requested <==> IdPresent(projectId) && confirmed
      ensures requested && ok ==> members == WithoutMember(old(members), memberId)
      ensures !(requested && ok) ==> members == old(members)
      ensures loading == old(loading) && showAddMember == old(showAddMember)
      ensures newMemberEmail == old(newMemberEmail) && newMemberRole == old(newMemberRole)
    {
      if !IdPresent(projectId) || !confirmed {
        return false;
      }
      requested := true;
      if ok {
        members := WithoutMember(members, memberId);
      }
    }
  }
}
