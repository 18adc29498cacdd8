/** The service's error table: every failure the services raise carries a
    numeric code, an HTTP status and a (Korean) message. */
module ErrorCodes {
  import opened Wrappers

  datatype HttpStatus =
    | OK | NoContent | BadRequest | Unauthorized | Forbidden | NotFound | Conflict | InternalServerError
  {
    function Value(): nat {
      match this
      case OK => 200
      case NoContent => 204
      case BadRequest => 400
      case Unauthorized => 401
      case Forbidden => 403
      case NotFound => 404
      case Conflict => 409
      case InternalServerError => 500
    }
  }

  datatype ErrorCode =
    // common, 0xxx
    | SUCCESS | INVALID_VALUE
    // pins, 1xxx
    | INVALID_PIN_INPUT | PIN_NOT_FOUND | PINS_NOT_FOUND | PIN_CREATE_FAILED | INVALID_PIN_CONTENT
    | INVALID_PIN_LATITUDE | INVALID_PIN_LONGITUDE | PIN_UPDATE_FAILED | PIN_DELETE_FAILED | PIN_NO_PERMISSION
    // users, 2xxx
    | INVALID_EMAIL_FORMAT | INVALID_PASSWORD_FORMAT | INVALID_USERNAME_FORMAT | EMAIL_ALREADY_EXISTS
    | NICKNAME_ALREADY_EXISTS | USER_NOT_FOUND | PASSWORD_NOT_MATCH | USER_INFO_NOT_FOUND
    | CURRENT_PASSWORD_REQUIRED | CURRENT_PASSWORD_NOT_MATCH | NO_FIELDS_TO_UPDATE | INVALID_API_KEY
    | INVALID_ACCESS_TOKEN | AUTH_REQUIRED | TOKEN_EXPIRED | ACCESS_DENIED
    // tags, 3xxx
    | TAG_NOT_FOUND | TAG_ALREADY_EXISTS | TAG_LINK_NOT_FOUND | TAG_ALREADY_LINKED | TAG_CREATE_FAILED
    | TAG_PIN_NOT_FOUND | PIN_TAG_LIST_EMPTY | PIN_TAG_DELETE_FAILED | PIN_TAG_RESTORE_FAILED
    | INVALID_TAG_KEYWORD | INVALID_TAG_INPUT | TAG_POSTS_NOT_FOUND
    // bookmarks, 4xxx
    | BOOKMARK_NOT_FOUND | BOOKMARK_ALREADY_EXISTS | BOOKMARKS_NOT_FOUND | BOOKMARK_CREATE_FAILED
    | BOOKMARK_DELETE_FAILED | BOOKMARK_RESTORE_FAILED | BOOKMARK_INVALID_USER_INPUT
    // likes, 5xxx
    | LIKES_INVALID_USER_INPUT | LIKES_INVALID_PIN_INPUT | LIKES_CREATE_FAILED | LIKES_REVOKE_FAILED
    | LIKES_UPDATE_PIN_FAILED | LIKES_NOT_FOUND

  function Code(e: ErrorCode): nat {
    match e
    case SUCCESS => 200
    case INVALID_VALUE => 400
    case INVALID_PIN_INPUT => 1001
    case PIN_NOT_FOUND => 1002
    case PINS_NOT_FOUND => 1003
    case PIN_CREATE_FAILED => 1004
    case INVALID_PIN_CONTENT => 1005
    case INVALID_PIN_LATITUDE => 1006
    case INVALID_PIN_LONGITUDE => 1007
    case PIN_UPDATE_FAILED => 1008
    case PIN_DELETE_FAILED => 1009
    case PIN_NO_PERMISSION => 1010
    case INVALID_EMAIL_FORMAT => 2001
    case INVALID_PASSWORD_FORMAT => 2002
    case INVALID_USERNAME_FORMAT => 2003
    case EMAIL_ALREADY_EXISTS => 2004
    case NICKNAME_ALREADY_EXISTS => 2005
    case USER_NOT_FOUND => 2006
    case PASSWORD_NOT_MATCH => 2007
    case USER_INFO_NOT_FOUND => 2008
    case CURRENT_PASSWORD_REQUIRED => 2009
    case CURRENT_PASSWORD_NOT_MATCH => 2010
    case NO_FIELDS_TO_UPDATE => 2011
    case INVALID_API_KEY => 2012
    case INVALID_ACCESS_TOKEN => 2013
    case AUTH_REQUIRED => 2014
    case TOKEN_EXPIRED => 2015
    case ACCESS_DENIED => 2016
    case TAG_NOT_FOUND => 3001
    case TAG_ALREADY_EXISTS => 3002
    case TAG_LINK_NOT_FOUND => 3003
    case TAG_ALREADY_LINKED => 3004
    case TAG_CREATE_FAILED => 3005
    case TAG_PIN_NOT_FOUND => 3006
    case PIN_TAG_LIST_EMPTY => 3007
    case PIN_TAG_DELETE_FAILED => 3008
    case PIN_TAG_RESTORE_FAILED => 3009
    case INVALID_TAG_KEYWORD => 3010
    case INVALID_TAG_INPUT => 3011
    case TAG_POSTS_NOT_FOUND => 3012
    case BOOKMARK_NOT_FOUND => 4001
    case BOOKMARK_ALREADY_EXISTS => 4002
    case BOOKMARKS_NOT_FOUND => 4003
    case BOOKMARK_CREATE_FAILED => 4004
    case BOOKMARK_DELETE_FAILED => 4005
    case BOOKMARK_RESTORE_FAILED => 4006
    case BOOKMARK_INVALID_USER_INPUT => 4007
    case LIKES_INVALID_USER_INPUT => 5001
    case LIKES_INVALID_PIN_INPUT => 5002
    case LIKES_CREATE_FAILED => 5003
    case LIKES_REVOKE_FAILED => 5004
    case LIKES_UPDATE_PIN_FAILED => 5005
    case LIKES_NOT_FOUND => 5006
  }

  function Status(e: ErrorCode): HttpStatus {
    match e
    case SUCCESS => OK
    case INVALID_VALUE | INVALID_PIN_INPUT | INVALID_PIN_CONTENT | INVALID_PIN_LATITUDE
      | INVALID_PIN_LONGITUDE | INVALID_EMAIL_FORMAT | INVALID_PASSWORD_FORMAT
      | INVALID_USERNAME_FORMAT | CURRENT_PASSWORD_REQUIRED | NO_FIELDS_TO_UPDATE
      | INVALID_TAG_KEYWORD | INVALID_TAG_INPUT => BadRequest
    case PASSWORD_NOT_MATCH | CURRENT_PASSWORD_NOT_MATCH | INVALID_API_KEY
      | INVALID_ACCESS_TOKEN | AUTH_REQUIRED | TOKEN_EXPIRED => Unauthorized
    case PIN_NO_PERMISSION | ACCESS_DENIED => Forbidden
    case PIN_NOT_FOUND | PINS_NOT_FOUND | USER_NOT_FOUND | USER_INFO_NOT_FOUND | TAG_NOT_FOUND
      | TAG_LINK_NOT_FOUND | TAG_PIN_NOT_FOUND | PIN_TAG_LIST_EMPTY | TAG_POSTS_NOT_FOUND
      | BOOKMARK_NOT_FOUND | BOOKMARK_INVALID_USER_INPUT | LIKES_INVALID_USER_INPUT
      | LIKES_INVALID_PIN_INPUT | LIKES_UPDATE_PIN_FAILED | LIKES_NOT_FOUND => NotFound
    case EMAIL_ALREADY_EXISTS | NICKNAME_ALREADY_EXISTS | TAG_ALREADY_EXISTS
      | TAG_ALREADY_LINKED | BOOKMARK_ALREADY_EXISTS => Conflict
    case BOOKMARKS_NOT_FOUND => NoContent
    case PIN_CREATE_FAILED | PIN_UPDATE_FAILED | PIN_DELETE_FAILED | TAG_CREATE_FAILED
      | PIN_TAG_DELETE_FAILED | PIN_TAG_RESTORE_FAILED | BOOKMARK_CREATE_FAILED
      | BOOKMARK_DELETE_FAILED | BOOKMARK_RESTORE_FAILED | LIKES_CREATE_FAILED
      | LIKES_REVOKE_FAILED => InternalServerError
  }

  function Message(e: ErrorCode): string {
    match e
    case SUCCESS => "성공적으로 처리되었습니다."
    case INVALID_VALUE => "입력값이 잘못되었습니다."
    case INVALID_PIN_INPUT => "잘못된 핀 입력값입니다."
    case PIN_NOT_FOUND => "존재하지 않는 핀입니다."
    case PINS_NOT_FOUND => "해당 조건에 일치하는 핀이 없습니다."
    case PIN_CREATE_FAILED => "핀 생성 중 오류가 발생했습니다."
    case INVALID_PIN_CONTENT => "내용을 입력해주세요."
    case INVALID_PIN_LATITUDE => "latitude를 입력해주세요."
    case INVALID_PIN_LONGITUDE => "longitude를 입력해주세요."
    case PIN_UPDATE_FAILED => "핀 수정 중 오류가 발생했습니다."
    case PIN_DELETE_FAILED => "핀 삭제 중 오류가 발생했습니다."
    case PIN_NO_PERMISSION => "핀 생성,수정 권한이 없습니다."
    case INVALID_EMAIL_FORMAT => "이메일 형식이 올바르지 않습니다."
    case INVALID_PASSWORD_FORMAT => "비밀번호 형식을 만족하지 않습니다."
    case INVALID_USERNAME_FORMAT => "회원 이름 형식을 만족하지 않습니다."
    case EMAIL_ALREADY_EXISTS => "이미 존재하는 이메일입니다."
    case NICKNAME_ALREADY_EXISTS => "이미 존재하는 회원이름입니다."
    case USER_NOT_FOUND => "존재하지 않는 이메일입니다."
    case PASSWORD_NOT_MATCH => "비밀번호가 일치하지 않습니다."
    case USER_INFO_NOT_FOUND => "회원 정보를 찾을 수 없습니다."
    case CURRENT_PASSWORD_REQUIRED => "현재 비밀번호가 필요합니다."
    case CURRENT_PASSWORD_NOT_MATCH => "현재 비밀번호가 일치하지 않습니다."
    case NO_FIELDS_TO_UPDATE => "변경할 내용이 없습니다."
    case INVALID_API_KEY => "API 키가 유효하지 않습니다."
    case INVALID_ACCESS_TOKEN => "Access Token이 유효하지 않습니다."
    case AUTH_REQUIRED => "로그인이 필요합니다."
    case TOKEN_EXPIRED => "Access Token이 만료되었습니다."
    case ACCESS_DENIED => "접근 권한이 없습니다."
    case TAG_NOT_FOUND => "존재하지 않는 태그입니다."
    case TAG_ALREADY_EXISTS => "이미 존재하는 태그입니다."
    case TAG_LINK_NOT_FOUND => "태그 연결이 존재하지 않습니다."
    case TAG_ALREADY_LINKED => "이미 이 핀에 연결된 태그입니다."
    case TAG_CREATE_FAILED => "태그 생성 중 오류가 발생했습니다."
    case TAG_PIN_NOT_FOUND => "핀을 찾을 수 없습니다."
    case PIN_TAG_LIST_EMPTY => "해당 핀에 연결된 태그가 없습니다."
    case PIN_TAG_DELETE_FAILED => "태그 삭제 중 오류가 발생했습니다."
    case PIN_TAG_RESTORE_FAILED => "태그 복구 중 오류가 발생했습니다."
    case INVALID_TAG_KEYWORD => "태그 키워드를 입력해주세요."
    case INVALID_TAG_INPUT => "잘못된 태그 입력값입니다."
    case TAG_POSTS_NOT_FOUND => "해당 태그가 달린 게시물이 없습니다."
    case BOOKMARK_NOT_FOUND => "존재하지 않는 북마크입니다."
    case BOOKMARK_ALREADY_EXISTS => "이미 북마크된 핀입니다."
    case BOOKMARKS_NOT_FOUND => "조회된 북마크 목록이 없습니다."
    case BOOKMARK_CREATE_FAILED => "북마크 생성 중 오류가 발생했습니다."
    case BOOKMARK_DELETE_FAILED => "북마크 삭제 중 오류가 발생했습니다."
    case BOOKMARK_RESTORE_FAILED => "북마크 복구 중 오류가 발생했습니다."
    case BOOKMARK_INVALID_USER_INPUT => "잘못된 사용자 정보입니다."
    case LIKES_INVALID_USER_INPUT => "잘못된 사용자 정보입니다."
    case LIKES_INVALID_PIN_INPUT => "잘못된 핀 정보입니다."
    case LIKES_CREATE_FAILED => "좋아요 등록 중 오류가 발생했습니다."
    case LIKES_REVOKE_FAILED => "좋아요 취소 중 오류가 발생했습니다."
    case LIKES_UPDATE_PIN_FAILED => "좋아요 갱신 중 오류가 발생했습니다."
    case LIKES_NOT_FOUND => "존재하지 않는 좋아요입니다."
  }

  /** The domains the table is grouped by. */
  datatype Domain = Common | Pins | Users | Tags | Bookmarks | Likes

  function DomainOf(e: ErrorCode): Domain {
    match e
    case SUCCESS | INVALID_VALUE => Common
    case INVALID_PIN_INPUT | PIN_NOT_FOUND | PINS_NOT_FOUND | PIN_CREATE_FAILED
      | INVALID_PIN_CONTENT | INVALID_PIN_LATITUDE | INVALID_PIN_LONGITUDE | PIN_UPDATE_FAILED
      | PIN_DELETE_FAILED | PIN_NO_PERMISSION => Pins
    case INVALID_EMAIL_FORMAT | INVALID_PASSWORD_FORMAT | INVALID_USERNAME_FORMAT
      | EMAIL_ALREADY_EXISTS | NICKNAME_ALREADY_EXISTS | USER_NOT_FOUND | PASSWORD_NOT_MATCH
      | USER_INFO_NOT_FOUND | CURRENT_PASSWORD_REQUIRED | CURRENT_PASSWORD_NOT_MATCH
      | NO_FIELDS_TO_UPDATE | INVALID_API_KEY | INVALID_ACCESS_TOKEN | AUTH_REQUIRED
      | TOKEN_EXPIRED | ACCESS_DENIED => Users
    case TAG_NOT_FOUND | TAG_ALREADY_EXISTS | TAG_LINK_NOT_FOUND | TAG_ALREADY_LINKED
      | TAG_CREATE_FAILED | TAG_PIN_NOT_FOUND | PIN_TAG_LIST_EMPTY | PIN_TAG_DELETE_FAILED
      | PIN_TAG_RESTORE_FAILED | INVALID_TAG_KEYWORD | INVALID_TAG_INPUT | TAG_POSTS_NOT_FOUND => Tags
    case BOOKMARK_NOT_FOUND | BOOKMARK_ALREADY_EXISTS | BOOKMARKS_NOT_FOUND
      | BOOKMARK_CREATE_FAILED | BOOKMARK_DELETE_FAILED | BOOKMARK_RESTORE_FAILED
      | BOOKMARK_INVALID_USER_INPUT => Bookmarks
    case LIKES_INVALID_USER_INPUT | LIKES_INVALID_PIN_INPUT | LIKES_CREATE_FAILED
      | LIKES_REVOKE_FAILED | LIKES_UPDATE_PIN_FAILED | LIKES_NOT_FOUND => Likes
  }


  function DomainDigit(d: Domain): nat {
    match d
    case Common => 0
    case Pins => 1
    case Users => 2
    case Tags => 3
    case Bookmarks => 4
    case Likes => 5
  }

  /** The constant that carries a given numeric code, if any: the reverse
      reading of the table. */
  function FromCode(c: int): (r: Option<ErrorCode>)
    ensures r.Some? ==> Code(r.value) == c
  {
    if c == 200 then Some(SUCCESS)
    else if c == 400 then Some(INVALID_VALUE)
    else
      var k := c % 1000;
      var row := Row(c / 1000);
      if 1 <= k <= |row| && Code(row[k - 1]) == c then Some(row[k - 1]) else None
  }

  /** The constants of one thousands block, in code order. */
  function Row(block: int): seq<ErrorCode> {
    if block == 1 then
      [INVALID_PIN_INPUT, PIN_NOT_FOUND, PINS_NOT_FOUND, PIN_CREATE_FAILED, INVALID_PIN_CONTENT,
       INVALID_PIN_LATITUDE, INVALID_PIN_LONGITUDE, PIN_UPDATE_FAILED, PIN_DELETE_FAILED,
       PIN_NO_PERMISSION]
    else if block == 2 then
      [INVALID_EMAIL_FORMAT, INVALID_PASSWORD_FORMAT, INVALID_USERNAME_FORMAT,
       EMAIL_ALREADY_EXISTS, NICKNAME_ALREADY_EXISTS, USER_NOT_FOUND, PASSWORD_NOT_MATCH,
       USER_INFO_NOT_FOUND, CURRENT_PASSWORD_REQUIRED, CURRENT_PASSWORD_NOT_MATCH,
       NO_FIELDS_TO_UPDATE, INVALID_API_KEY, INVALID_ACCESS_TOKEN, AUTH_REQUIRED,
       TOKEN_EXPIRED, ACCESS_DENIED]
    else if block == 3 then
      [TAG_NOT_FOUND, TAG_ALREADY_EXISTS, TAG_LINK_NOT_FOUND, TAG_ALREADY_LINKED,
       TAG_CREATE_FAILED, TAG_PIN_NOT_FOUND, PIN_TAG_LIST_EMPTY, PIN_TAG_DELETE_FAILED,
       PIN_TAG_RESTORE_FAILED, INVALID_TAG_KEYWORD, INVALID_TAG_INPUT, TAG_POSTS_NOT_FOUND]
    else if block == 4 then
      [BOOKMARK_NOT_FOUND, BOOKMARK_ALREADY_EXISTS, BOOKMARKS_NOT_FOUND, BOOKMARK_CREATE_FAILED,
       BOOKMARK_DELETE_FAILED, BOOKMARK_RESTORE_FAILED, BOOKMARK_INVALID_USER_INPUT]
    else if block == 5 then
      [LIKES_INVALID_USER_INPUT, LIKES_INVALID_PIN_INPUT, LIKES_CREATE_FAILED,
       LIKES_REVOKE_FAILED, LIKES_UPDATE_PIN_FAILED, LIKES_NOT_FOUND]
    else []
  }

  /** Reading a constant's code back finds that constant. */
  lemma CodeRoundTrip(e: ErrorCode)
    ensures FromCode(Code(e)) == Some(e)
  {
    match DomainOf(e)
    case Common =>
    case Pins => PinsRoundTrip(e);
    case Users => UsersRoundTrip(e);
    case Tags => TagsRoundTrip(e);
    case Bookmarks => BookmarksRoundTrip(e);
    case Likes => LikesRoundTrip(e);
  }

  lemma PinsRoundTrip(e: ErrorCode)
    requires DomainOf(e) == Pins
    ensures FromCode(Code(e)) == Some(e)
  {
  }

  lemma UsersRoundTrip(e: ErrorCode)
    requires DomainOf(e) == Users
    ensures FromCode(Code(e)) == Some(e)
  {
  }

  lemma TagsRoundTrip(e: ErrorCode)
    requires DomainOf(e) == Tags
    ensures FromCode(Code(e)) == Some(e)
  {
  }

  lemma BookmarksRoundTrip(e: ErrorCode)
    requires DomainOf(e) == Bookmarks
    ensures FromCode(Code(e)) == Some(e)
  {
  }

  lemma LikesRoundTrip(e: ErrorCode)
    requires DomainOf(e) == Likes
    ensures FromCode(Code(e)) == Some(e)
  {
  }

  /** Numeric codes are pairwise distinct. */
  lemma CodesDistinct(a: ErrorCode, b: ErrorCode)
    ensures Code(a) == Code(b) ==> a == b
  {
    CodeRoundTrip(a);
    CodeRoundTrip(b);
  }

  /** The thousands digit of a code names its domain (the two common codes
      reuse their HTTP status). */
  lemma CodeInDomain(e: ErrorCode)
    ensures DomainOf(e) != Common ==> Code(e) / 1000 == DomainDigit(DomainOf(e)) && Code(e) % 1000 != 0
    ensures DomainOf(e) == Common ==> Code(e) == Status(e).Value()
  {
  }

  /** Across the whole table, 401 is answered exactly for the password and
      credential failures of the users block, and 403 exactly for the two
      denials: a missing permission on a pin and a denied route. */
  lemma AuthFailureStatuses(e: ErrorCode)
    ensures Status(e) == Unauthorized <==>
      e in {PASSWORD_NOT_MATCH, CURRENT_PASSWORD_NOT_MATCH, INVALID_API_KEY, INVALID_ACCESS_TOKEN, AUTH_REQUIRED, TOKEN_EXPIRED}
    ensures Status(e) == Forbidden <==> e in {PIN_NO_PERMISSION, ACCESS_DENIED}
    ensures Status(e) == Unauthorized || Status(e) == Forbidden ==> 1000 < Code(e) < 3000
  {
  }
}
