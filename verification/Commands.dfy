/** Command codes and the direction bit. */
module Commands {
  import opened MessagePb

  const S2C: uint32 := 0xF000_0000

  const CMD_LOGIN_REQ: uint32 := 0x0001
  const CMD_LOGIN_RESP: uint32 := S2C + 0x0002
  const CMD_LOGOUT_REQ: uint32 := 0x0003
  const CMD_QUERY_BY_CODE_REQ: uint32 := 0x0101
  const CMD_QUERY_BY_INSTRUCTOR_REQ: uint32 := 0x0102
  const CMD_QUERY_BY_SEMESTER_REQ: uint32 := 0x0103
  const CMD_VIEW_ALL_REQ: uint32 := 0x0104
  const CMD_VIEW_ALL_PAGE_REQ: uint32 := 0x0105
  const CMD_QUERY_RESP: uint32 := S2C + 0x0180
  const CMD_ADD_REQ: uint32 := 0x0201
  const CMD_UPDATE_REQ: uint32 := 0x0202
  const CMD_DELETE_REQ: uint32 := 0x0203
  const CMD_ADMIN_RESP: uint32 := S2C + 0x0280
  const CMD_ADMIN_LIST_REQ: uint32 := 0x0210
  const CMD_ADMIN_CREATE_REQ: uint32 := 0x0211
  const CMD_ADMIN_UPDATE_REQ: uint32 := 0x0212
  const CMD_ADMIN_DELETE_REQ: uint32 := 0x0213
  const CMD_ADMIN_LIST_RESP: uint32 := S2C + 0x0290
  const CMD_OK: uint32 := S2C + 0xFF00
  const CMD_ERROR: uint32 := S2C + 0xFFFF
  const CMD_PERMISSION_ERR: uint32 := S2C + 0xFFFE
  const CMD_SERVER_ERROR: uint32 := S2C + 0xFFFD

  /** (c & 0x80000000) != 0 */
  predicate IsS2C(c: uint32): (r: bool)
    ensures r <==> c >= 0x8000_0000
  {
    c / 0x8000_0000 % 2 != 0
  }
}
